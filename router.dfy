/** Routes: a pattern with `:name` captures compiled into a regular
    expression `^...$` whose captures are `([^/]+)`, and dispatch of a request
    to the first route whose method and pattern match, with the captures
    bound as path parameters, or a fixed 404. */
module Routers {
  import opened Text
  import opened HttpRequests
  import opened HttpResponses

  // ---------------------------------------------------------------------
  // Pattern compilation
  // ---------------------------------------------------------------------

  /** A piece of a compiled pattern: literal text, or a capture `([^/]+)`. */
  datatype Piece = Literal(text: string) | Capture

  /** What `compile_pattern` produces: the pieces of the regular expression,
      left to right, and `param_names`. */
  datatype Compiled = Compiled(pieces: seq<Piece>, names: seq<string>)

  /** A character of a parameter name: `std::isalnum(c) || c == '_'`. */
  predicate IsNameChar(c: char) {
    IsAlnum(c) || c == '_'
  }

  /** The end of the run of name characters starting at `i`. */
  function NameEnd(p: string, i: nat): (e: nat)
    requires i <= |p|
    ensures i <= e <= |p|
    ensures forall k :: i <= k < e ==> IsNameChar(p[k])
    ensures e < |p| ==> !IsNameChar(p[e])
    decreases |p| - i
  {
    if i < |p| && IsNameChar(p[i]) then NameEnd(p, i + 1) else i
  }

  /** The literal before a `:` at `colon`, when it is not empty. */
  function LiteralBefore(p: string, pos: nat, colon: nat): seq<Piece>
    requires pos <= colon <= |p|
  {
    if colon > pos then [Literal(p[pos..colon])] else []
  }

  /** `compile_pattern` from offset `pos`: the text up to the next `:` is a
      literal; the `:` and the name characters after it are a capture whose
      name may be empty; without a further `:` the rest is a literal. */
  function CompileFrom(p: string, pos: nat): Compiled
    requires pos <= |p|
    decreases |p| - pos
  {
    if pos == |p| then Compiled([], [])
    else
      match FindChar(p, ':', pos)
      case None => Compiled([Literal(p[pos..])], [])
      case Some(colon) =>
        var e := NameEnd(p, colon + 1);
        var rest := CompileFrom(p, e);
        Compiled(LiteralBefore(p, pos, colon) + [Capture] + rest.pieces, [p[colon + 1..e]] + rest.names)
  }

  function Compile(p: string): Compiled {
    CompileFrom(p, 0)
  }

  /** The number of captures among the pieces. */
  function CaptureCount(pieces: seq<Piece>): nat
    decreases |pieces|
  {
    if pieces == [] then 0 else (if pieces[0].Capture? then 1 else 0) + CaptureCount(pieces[1..])
  }

  /** The number of times `c` occurs in `s`. */
  function Count(s: string, c: char): nat
    decreases |s|
  {
    if s == [] then 0 else (if s[0] == c then 1 else 0) + Count(s[1..], c)
  }

  /** The pattern text a compiled pattern stands for: each literal verbatim,
      each capture as `:` followed by its name. */
  function Render(pieces: seq<Piece>, names: seq<string>): string
    decreases |pieces|
  {
    if pieces == [] then ""
    else
      match pieces[0]
      case Literal(t) => t + Render(pieces[1..], names)
      case Capture =>
        if names == [] then ":" + Render(pieces[1..], [])
        else ":" + names[0] + Render(pieces[1..], names[1..])
  }

  /** A pattern as `compile_pattern` leaves it: one name per capture, names
      made of name characters, literals non-empty and free of `:`. */
  predicate WellCompiled(c: Compiled) {
    && CaptureCount(c.pieces) == |c.names|
    && (forall i :: 0 <= i < |c.names| ==> forall k :: 0 <= k < |c.names[i]| ==> IsNameChar(c.names[i][k]))
    && (forall i :: 0 <= i < |c.pieces| && c.pieces[i].Literal? ==>
          c.pieces[i].text != [] && Count(c.pieces[i].text, ':') == 0)
  }

  lemma CountAppend(a: string, b: string, c: char)
    ensures Count(a + b, c) == Count(a, c) + Count(b, c)
    decreases |a|
  {
    if a == [] {
      assert a + b == b;
    } else {
      assert (a + b)[1..] == a[1..] + b;
      CountAppend(a[1..], b, c);
    }
  }

  lemma {:induction false} CountNone(s: string, c: char)
    requires forall i :: 0 <= i < |s| ==> s[i] != c
    ensures Count(s, c) == 0
    decreases |s|
  {
    if s != [] {
      CountNone(s[1..], c);
    }
  }

  lemma CaptureCountAppend(a: seq<Piece>, b: seq<Piece>)
    ensures CaptureCount(a + b) == CaptureCount(a) + CaptureCount(b)
    decreases |a|
  {
    if a == [] {
      assert a + b == b;
    } else {
      assert (a + b)[1..] == a[1..] + b;
      CaptureCountAppend(a[1..], b);
    }
  }

  /** One capture of the compilation: the pattern splits at `colon` into the
      literal before it, the `:`, the name and the rest. */
  lemma CompileFromCapture(p: string, pos: nat, colon: nat)
    requires pos < |p| && FindChar(p, ':', pos) == Some(colon)
    ensures CompileFrom(p, pos).pieces
         == LiteralBefore(p, pos, colon) + [Capture] + CompileFrom(p, NameEnd(p, colon + 1)).pieces
    ensures CompileFrom(p, pos).names
         == [p[colon + 1..NameEnd(p, colon + 1)]] + CompileFrom(p, NameEnd(p, colon + 1)).names
  {
  }

  lemma CompileFromLast(p: string, pos: nat)
    requires pos < |p| && FindChar(p, ':', pos).None?
    ensures CompileFrom(p, pos) == Compiled([Literal(p[pos..])], [])
  {
  }

  /** The number of names is the number of `:` in the pattern, one capture
      stands for each, names hold only name characters, and literals are
      non-empty and hold no `:`. */
  lemma {:induction false} CompileFromShape(p: string, pos: nat)
    requires pos <= |p|
    ensures WellCompiled(CompileFrom(p, pos))
    ensures |CompileFrom(p, pos).names| == Count(p[pos..], ':')
    decreases |p| - pos
  {
    if pos == |p| {
      assert p[pos..] == [];
    } else {
      match FindChar(p, ':', pos)
      case None =>
        CompileFromLast(p, pos);
        CountNone(p[pos..], ':');
      case Some(colon) =>
        var e := NameEnd(p, colon + 1);
        CompileFromCapture(p, pos, colon);
        CompileFromShape(p, e);
        CapturePass(p, pos, colon, e);
    }
  }

  /** The inductive step of `CompileFromShape` for a capture. */
  lemma CapturePass(p: string, pos: nat, colon: nat, e: nat)
    requires pos < |p| && FindChar(p, ':', pos) == Some(colon) && e == NameEnd(p, colon + 1)
    requires WellCompiled(CompileFrom(p, e)) && |CompileFrom(p, e).names| == Count(p[e..], ':')
    ensures WellCompiled(CompileFrom(p, pos))
    ensures |CompileFrom(p, pos).names| == Count(p[pos..], ':')
  {
    CompileFromCapture(p, pos, colon);
    ColonCountPass(p, pos, colon, e);
    LiteralBeforeClean(p, pos, colon);
    NameEndChars(p, colon + 1, e);
    WellCompiledCons(LiteralBefore(p, pos, colon), p[colon + 1..e], CompileFrom(p, e));
  }

  /** At most one literal, non-empty and free of `:`. */
  predicate CleanLiteral(lit: seq<Piece>) {
    |lit| <= 1 && forall i :: 0 <= i < |lit| ==> lit[i].Literal? && lit[i].text != [] && Count(lit[i].text, ':') == 0
  }

  predicate NameChars(name: string) {
    forall k :: 0 <= k < |name| ==> IsNameChar(name[k])
  }

  /** The text before the next `:` makes a clean literal. */
  lemma LiteralBeforeClean(p: string, pos: nat, colon: nat)
    requires pos < |p| && FindChar(p, ':', pos) == Some(colon)
    ensures CleanLiteral(LiteralBefore(p, pos, colon))
  {
    if colon > pos {
      CountNone(p[pos..colon], ':');
    }
  }

  /** A name runs over name characters only. */
  lemma NameEndChars(p: string, start: nat, e: nat)
    requires start <= |p| && e == NameEnd(p, start)
    ensures NameChars(p[start..e])
  {
  }

  /** The `:` of a capture is the only one between `pos` and the end of
      the name. */
  lemma ColonCountPass(p: string, pos: nat, colon: nat, e: nat)
    requires pos < |p| && FindChar(p, ':', pos) == Some(colon) && e == NameEnd(p, colon + 1)
    ensures Count(p[pos..], ':') == 1 + Count(p[e..], ':')
  {
    var name := p[colon + 1..e];
    CountNone(p[pos..colon], ':');
    CountNone(name, ':');
    SplitAtCapture(p, pos, colon, e);
    CountAppend(p[pos..colon], ":" + name + p[e..], ':');
    CountAppend(":" + name, p[e..], ':');
    CountAppend(":", name, ':');
  }

  /** A capture, with at most one well-formed literal before it, in front of
      a well-compiled rest keeps it well-compiled. */
  lemma WellCompiledCons(lit: seq<Piece>, name: string, rest: Compiled)
    requires WellCompiled(rest) && CleanLiteral(lit) && NameChars(name)
    ensures WellCompiled(Compiled(lit + [Capture] + rest.pieces, [name] + rest.names))
  {
    var pieces := lit + [Capture] + rest.pieces;
    var names := [name] + rest.names;
    CaptureCountAppend(lit + [Capture], rest.pieces);
    CaptureCountAppend(lit, [Capture]);
    assert CaptureCount([Capture]) == 1;
    if lit != [] {
      assert CaptureCount(lit) == 0;
    }
    forall i | 0 <= i < |pieces| && pieces[i].Literal?
      ensures pieces[i].text != [] && Count(pieces[i].text, ':') == 0
    {
      if i > |lit| {
        assert pieces[i] == rest.pieces[i - |lit| - 1];
      }
    }
    forall i | 0 < i < |names|
      ensures forall k :: 0 <= k < |names[i]| ==> IsNameChar(names[i][k])
    {
      assert names[i] == rest.names[i - 1];
    }
  }

  /** The number of `param_names` is the number of `:` in the pattern, and
      each capture of the expression has its name. */
  lemma CompileNamesCountColons(p: string)
    ensures WellCompiled(Compile(p))
    ensures |Compile(p).names| == Count(p, ':')
  {
    CompileFromShape(p, 0);
    assert p[0..] == p;
  }

  lemma RenderLiteral(t: string, pieces: seq<Piece>, names: seq<string>)
    ensures Render([Literal(t)] + pieces, names) == t + Render(pieces, names)
  {
    assert ([Literal(t)] + pieces)[1..] == pieces;
  }

  lemma RenderCapture(name: string, pieces: seq<Piece>, names: seq<string>)
    ensures Render([Capture] + pieces, [name] + names) == ":" + name + Render(pieces, names)
  {
    assert ([Capture] + pieces)[1..] == pieces;
    assert ([name] + names)[1..] == names;
  }

  /** Compiling and rendering back gives the pattern: nothing of the
      pattern is lost by compilation. */
  lemma {:induction false} RenderCompileFrom(p: string, pos: nat)
    requires pos <= |p|
    ensures Render(CompileFrom(p, pos).pieces, CompileFrom(p, pos).names) == p[pos..]
    decreases |p| - pos
  {
    if pos == |p| {
    } else {
      match FindChar(p, ':', pos)
      case None =>
        CompileFromLast(p, pos);
        RenderLiteral(p[pos..], [], []);
      case Some(colon) =>
        var e := NameEnd(p, colon + 1);
        CompileFromCapture(p, pos, colon);
        RenderCompileFrom(p, e);
        RenderPass(p, pos, colon, e);
    }
  }

  lemma RenderPass(p: string, pos: nat, colon: nat, e: nat)
    requires pos < |p| && FindChar(p, ':', pos) == Some(colon) && e == NameEnd(p, colon + 1)
    requires Render(CompileFrom(p, e).pieces, CompileFrom(p, e).names) == p[e..]
    ensures Render(CompileFrom(p, pos).pieces, CompileFrom(p, pos).names) == p[pos..]
  {
    CompileFromCapture(p, pos, colon);
    RenderCons(LiteralBefore(p, pos, colon), p[colon + 1..e], CompileFrom(p, e));
    SplitAtCapture(p, pos, colon, e);
    if colon == pos {
      assert p[pos..colon] == "";
    }
  }

  /** The text of a capture pass: the literal, the `:`, the name and the
      rest. */
  lemma RenderCons(lit: seq<Piece>, name: string, rest: Compiled)
    requires |lit| <= 1 && forall i :: 0 <= i < |lit| ==> lit[i].Literal?
    ensures Render(lit + [Capture] + rest.pieces, [name] + rest.names)
         == (if lit == [] then "" else lit[0].text) + (":" + name + Render(rest.pieces, rest.names))
  {
    if lit != [] {
      assert lit == [Literal(lit[0].text)];
      RenderLiteralCapture(lit[0].text, name, rest);
    } else {
      RenderCaptureOnly(name, rest);
    }
  }

  lemma RenderLiteralCapture(t: string, name: string, rest: Compiled)
    ensures Render([Literal(t)] + [Capture] + rest.pieces, [name] + rest.names)
         == t + (":" + name + Render(rest.pieces, rest.names))
  {
    RenderCapture(name, rest.pieces, rest.names);
    assert [Literal(t)] + [Capture] + rest.pieces == [Literal(t)] + ([Capture] + rest.pieces);
    RenderLiteral(t, [Capture] + rest.pieces, [name] + rest.names);
  }

  lemma RenderCaptureOnly(name: string, rest: Compiled)
    ensures Render([] + [Capture] + rest.pieces, [name] + rest.names)
         == "" + (":" + name + Render(rest.pieces, rest.names))
  {
    RenderCapture(name, rest.pieces, rest.names);
    assert [] + [Capture] + rest.pieces == [Capture] + rest.pieces;
    assert "" + (":" + name + Render(rest.pieces, rest.names)) == ":" + name + Render(rest.pieces, rest.names);
  }

  lemma SplitAtCapture(p: string, pos: nat, colon: nat, e: nat)
    requires pos <= colon < e <= |p| && p[colon] == ':'
    ensures p[pos..] == p[pos..colon] + (":" + p[colon + 1..e] + p[e..])
  {
    assert p[pos..] == p[pos..colon] + (p[colon..e] + p[e..]);
    assert p[colon..e] == ":" + p[colon + 1..e];
  }

  lemma CompileRoundTrip(p: string)
    ensures Render(Compile(p).pieces, Compile(p).names) == p
  {
    RenderCompileFrom(p, 0);
    assert p[0..] == p;
  }

  // ---------------------------------------------------------------------
  // The text of the regular expression
  // ---------------------------------------------------------------------

  /** The characters `regex_escape` puts a backslash before. */
  const SpecialChars: string := "\\^$.|?*+()[]{}"

  predicate IsSpecial(c: char) {
    c in SpecialChars
  }

  function EscapeChar(c: char): string {
    if IsSpecial(c) then ['\\', c] else [c]
  }

  /** `regex_escape`: a backslash before each special character. */
  function EscapeRegex(s: string): string
    decreases |s|
  {
    if s == [] then [] else EscapeChar(s[0]) + EscapeRegex(s[1..])
  }

  /** Drops the backslash of each escape: the inverse partner of
      `EscapeRegex`. */
  function Unescape(t: string): string
    decreases |t|
  {
    if t == [] then []
    else if t[0] == '\\' && |t| >= 2 then [t[1]] + Unescape(t[2..])
    else [t[0]] + Unescape(t[1..])
  }

  function CountSpecial(s: string): nat
    decreases |s|
  {
    if s == [] then 0 else (if IsSpecial(s[0]) then 1 else 0) + CountSpecial(s[1..])
  }

  /** Stripping the added backslashes gives back the input. */
  lemma {:induction false} UnescapeEscapeRegex(s: string)
    ensures Unescape(EscapeRegex(s)) == s
    decreases |s|
  {
    if s != [] {
      var rest := EscapeRegex(s[1..]);
      UnescapeEscapeRegex(s[1..]);
      var t := EscapeChar(s[0]) + rest;
      assert EscapeRegex(s) == t;
      if IsSpecial(s[0]) {
        assert t[0] == '\\' && |t| >= 2 && t[1] == s[0] && t[2..] == rest;
        assert Unescape(t) == [s[0]] + Unescape(rest);
      } else {
        assert IsSpecial('\\');
        assert t[0] == s[0] && t[0] != '\\' && t[1..] == rest;
        assert Unescape(t) == [s[0]] + Unescape(rest);
      }
      assert [s[0]] + s[1..] == s;
    }
  }

  /** The escaped text is one character longer per special character. */
  lemma {:induction false} EscapeRegexLength(s: string)
    ensures |EscapeRegex(s)| == |s| + CountSpecial(s)
    decreases |s|
  {
    if s != [] {
      EscapeRegexLength(s[1..]);
    }
  }

  lemma {:induction false} EscapeRegexSnoc(s: string, c: char)
    ensures EscapeRegex(s + [c]) == EscapeRegex(s) + EscapeChar(c)
    decreases |s|
  {
    if s == [] {
      assert [c][1..] == [];
    } else {
      assert (s + [c])[1..] == s[1..] + [c];
      EscapeRegexSnoc(s[1..], c);
    }
  }

  const CaptureRegex: string := "([^/]+)"

  function PieceRegex(piece: Piece): string {
    match piece
    case Literal(t) => EscapeRegex(t)
    case Capture => CaptureRegex
  }

  /** The expression text up to the closing `$`: `^` and the text of each
      piece. */
  function RegexOpen(pieces: seq<Piece>): string
    decreases |pieces|
  {
    if pieces == [] then "^" else RegexOpen(pieces[..|pieces| - 1]) + PieceRegex(pieces[|pieces| - 1])
  }

  lemma RegexOpenSnoc(pieces: seq<Piece>, piece: Piece)
    ensures RegexOpen(pieces + [piece]) == RegexOpen(pieces) + PieceRegex(piece)
  {
    assert (pieces + [piece])[..|pieces|] == pieces;
  }

  /** The expression `compile_pattern` hands to `std::regex`. */
  function RegexSource(pieces: seq<Piece>): string {
    RegexOpen(pieces) + "$"
  }

  /** `regex_escape`. */
  method RegexEscape(str: string) returns (result: string)
    ensures result == EscapeRegex(str)
  {
    result := "";
    var i := 0;
    while i < |str|
      invariant i <= |str|
      invariant result == EscapeRegex(str[..i])
      decreases |str| - i
    {
      var c := str[i];
      EscapeRegexSnoc(str[..i], c);
      assert str[..i + 1] == str[..i] + [c];
      if c in SpecialChars {
        result := result + ['\\'];
      }
      result := result + [c];
      i := i + 1;
    }
    assert str[..i] == str;
  }

  /** `compile_pattern`: the expression text, its pieces and `param_names`. */
  method CompilePattern(pattern: string) returns (regex: string, pieces: seq<Piece>, names: seq<string>)
    ensures Compiled(pieces, names) == Compile(pattern)
    ensures regex == RegexSource(pieces)
  {
    regex := "^";
    pieces, names := [], [];
    var pos := 0;
    while pos < |pattern|
      invariant CompiledSoFar(pattern, pos, pieces, names)
      invariant regex == RegexOpen(pieces)
      decreases |pattern| - pos
    {
      var paramStart := FindChar(pattern, ':', pos);
      if paramStart.None? {
        CompileLastPass(pattern, pos, pieces, names);
        regex, pieces := AppendLiteral(regex, pieces, pattern[pos..]);
        break;
      }
      regex, pieces, names, pos := CompileCapture(pattern, pos, paramStart.value, regex, pieces, names);
    }
    regex := regex + "$";
  }

  /** One capture pass of `compile_pattern`: the escaped literal before the
      `:` at `colon`, if any, then the capture, its name and the offset
      after the name. */
  method CompileCapture(pattern: string, pos: nat, colon: nat, regex: string, pieces: seq<Piece>, names: seq<string>)
    returns (regex': string, pieces': seq<Piece>, names': seq<string>, next: nat)
    requires CompiledSoFar(pattern, pos, pieces, names) && regex == RegexOpen(pieces)
    requires pos < |pattern| && FindChar(pattern, ':', pos) == Some(colon)
    ensures pos < next && CompiledSoFar(pattern, next, pieces', names') && regex' == RegexOpen(pieces')
  {
    regex', pieces' := regex, pieces;
    if colon > pos {
      regex', pieces' := AppendLiteral(regex', pieces', pattern[pos..colon]);
      assert pieces' == pieces + LiteralBefore(pattern, pos, colon);
    } else {
      assert pieces' == pieces + LiteralBefore(pattern, pos, colon);
    }
    next := ScanName(pattern, colon + 1);
    CompileCapturePass(pattern, pos, colon, pieces, pieces', names);
    names' := names + [pattern[colon + 1..next]];
    RegexOpenSnoc(pieces', Capture);
    regex' := regex' + CaptureRegex;
    pieces' := pieces' + [Capture];
  }

  /** Appends an escaped literal to the expression text. */
  method AppendLiteral(regex: string, pieces: seq<Piece>, literal: string) returns (regex': string, pieces': seq<Piece>)
    requires regex == RegexOpen(pieces)
    ensures pieces' == pieces + [Literal(literal)]
    ensures regex' == RegexOpen(pieces')
  {
    var escaped := RegexEscape(literal);
    RegexOpenSnoc(pieces, Literal(literal));
    regex' := regex + escaped;
    pieces' := pieces + [Literal(literal)];
  }

  /** The `param_end` loop: the end of the name starting at `start`. */
  method ScanName(pattern: string, start: nat) returns (paramEnd: nat)
    requires start <= |pattern|
    ensures paramEnd == NameEnd(pattern, start)
  {
    paramEnd := start;
    while paramEnd < |pattern| && IsNameChar(pattern[paramEnd])
      invariant start <= paramEnd <= |pattern|
      invariant NameEnd(pattern, paramEnd) == NameEnd(pattern, start)
      decreases |pattern| - paramEnd
    {
      paramEnd := paramEnd + 1;
    }
  }

  /** The compilation loop has produced `pieces` and `names` for the
      pattern before `pos`. */
  predicate CompiledSoFar(p: string, pos: nat, pieces: seq<Piece>, names: seq<string>) {
    && pos <= |p|
    && pieces + CompileFrom(p, pos).pieces == Compile(p).pieces
    && names + CompileFrom(p, pos).names == Compile(p).names
  }

  /** One capture pass of the compilation loop: the literal before the `:`,
      if any, the capture and its name. */
  lemma CompileCapturePass(p: string, pos: nat, colon: nat, before: seq<Piece>, pieces: seq<Piece>, names: seq<string>)
    requires CompiledSoFar(p, pos, before, names)
    requires pos < |p| && FindChar(p, ':', pos) == Some(colon)
    requires pieces == before + LiteralBefore(p, pos, colon)
    ensures CompiledSoFar(p, NameEnd(p, colon + 1), pieces + [Capture], names + [p[colon + 1..NameEnd(p, colon + 1)]])
  {
    CompileFromCapture(p, pos, colon);
    Regroup(before, LiteralBefore(p, pos, colon), [Capture], CompileFrom(p, NameEnd(p, colon + 1)).pieces);
    Regroup(names, [], [p[colon + 1..NameEnd(p, colon + 1)]], CompileFrom(p, NameEnd(p, colon + 1)).names);
  }

  lemma Regroup<T>(a: seq<T>, b: seq<T>, c: seq<T>, d: seq<T>)
    ensures (a + b + c) + d == a + (b + c + d)
    ensures a + [] == a && [] + c == c
  {
  }

  /** The last pass: the rest of the pattern is one literal. */
  lemma CompileLastPass(p: string, pos: nat, pieces: seq<Piece>, names: seq<string>)
    requires CompiledSoFar(p, pos, pieces, names)
    requires pos < |p| && FindChar(p, ':', pos).None?
    ensures Compiled(pieces + [Literal(p[pos..])], names) == Compile(p)
  {
    CompileFromLast(p, pos);
    assert names + [] == names;
  }

  // ---------------------------------------------------------------------
  // Matching
  // ---------------------------------------------------------------------

  /** The length of the longest run of non-`/` characters at the start of `s`. */
  function SegmentLength(s: string): (k: nat)
    ensures k <= |s|
    ensures forall i :: 0 <= i < k ==> s[i] != '/'
    ensures k < |s| ==> s[k] == '/'
    decreases |s|
  {
    if s != [] && s[0] != '/' then 1 + SegmentLength(s[1..]) else 0
  }

  /** `std::regex_match` of the compiled expression against the whole of
      `s`: the captured substrings, or `None`. A literal matches itself; a
      capture takes one or more non-`/` characters, longest first, as the
      backtracking of the greedy `[^/]+` tries them. */
  function MatchPieces(pieces: seq<Piece>, s: string): Option<seq<string>>
    decreases |pieces|, 1, 0
  {
    if pieces == [] then (if s == [] then Some([]) else None)
    else
      match pieces[0]
      case Literal(t) => if t <= s then MatchPieces(pieces[1..], s[|t|..]) else None
      case Capture => TryCapture(pieces[1..], s, SegmentLength(s))
  }

  /** Backtracking over one capture: the first length from `k` down to 1
      with which the rest of the pieces match the rest of `s`. */
  function TryCapture(rest: seq<Piece>, s: string, k: nat): Option<seq<string>>
    requires k <= |s|
    decreases |rest| + 1, 0, k
  {
    if k == 0 then None
    else
      match MatchPieces(rest, s[k..])
      case Some(caps) => Some([s[..k]] + caps)
      case None => TryCapture(rest, s, k - 1)
  }

  /** The text the pieces spell with `caps` for their captures. */
  function Fill(pieces: seq<Piece>, caps: seq<string>): string
    decreases |pieces|
  {
    if pieces == [] then ""
    else
      match pieces[0]
      case Literal(t) => t + Fill(pieces[1..], caps)
      case Capture =>
        if caps == [] then Fill(pieces[1..], []) else caps[0] + Fill(pieces[1..], caps[1..])
  }

  /** One or more non-`/` characters: what `([^/]+)` can capture. */
  predicate Segment(c: string) {
    c != [] && forall i :: 0 <= i < |c| ==> c[i] != '/'
  }

  /** The expression can match `s` with captures `caps`: one segment per
      capture, and the pieces filled with them spell all of `s`. */
  predicate Spells(pieces: seq<Piece>, caps: seq<string>, s: string) {
    && |caps| == CaptureCount(pieces)
    && (forall i :: 0 <= i < |caps| ==> Segment(caps[i]))
    && Fill(pieces, caps) == s
  }

  lemma SpellsLiteral(t: string, pieces: seq<Piece>, caps: seq<string>, s: string)
    requires t <= s
    ensures Spells([Literal(t)] + pieces, caps, s) <==> Spells(pieces, caps, s[|t|..])
  {
    assert ([Literal(t)] + pieces)[1..] == pieces;
    if Fill(pieces, caps) == s[|t|..] {
      assert t + s[|t|..] == s;
    }
    if t + Fill(pieces, caps) == s {
      assert s[|t|..] == Fill(pieces, caps);
    }
  }

  lemma SpellsCapture(c: string, pieces: seq<Piece>, caps: seq<string>, s: string)
    requires c <= s
    ensures Spells([Capture] + pieces, [c] + caps, s) <==> Segment(c) && Spells(pieces, caps, s[|c|..])
  {
    var ps := [Capture] + pieces;
    var cs := [c] + caps;
    assert ps[1..] == pieces && cs[1..] == caps;
    assert forall i :: 0 < i < |cs| ==> cs[i] == caps[i - 1];
    if Fill(pieces, caps) == s[|c|..] {
      assert c + s[|c|..] == s;
    }
    if c + Fill(pieces, caps) == s {
      assert s[|c|..] == Fill(pieces, caps);
    }
  }

  /** A literal that does not start `s` cannot be spelled into it. */
  lemma SpellsLiteralPrefix(t: string, pieces: seq<Piece>, caps: seq<string>, s: string)
    requires Spells([Literal(t)] + pieces, caps, s)
    ensures t <= s
  {
    assert ([Literal(t)] + pieces)[1..] == pieces;
    assert s == t + Fill(pieces, caps);
  }

  /** What a capture spells is a prefix of `s` within its first segment. */
  lemma SpellsCapturePrefix(pieces: seq<Piece>, caps: seq<string>, s: string)
    requires Spells([Capture] + pieces, caps, s)
    ensures caps != [] && caps[0] <= s && 1 <= |caps[0]| <= SegmentLength(s)
    ensures Spells([Capture] + pieces, [caps[0]] + caps[1..], s)
  {
    assert ([Capture] + pieces)[1..] == pieces;
    assert CaptureCount([Capture] + pieces) == 1 + CaptureCount(pieces);
    var c := caps[0];
    assert s == c + Fill(pieces, caps[1..]);
    assert Segment(c);
    assert [c] + caps[1..] == caps;
  }

  /** Soundness of the match: the captures it returns spell `s`. */
  lemma {:induction false} MatchSound(pieces: seq<Piece>, s: string)
    requires MatchPieces(pieces, s).Some?
    ensures Spells(pieces, MatchPieces(pieces, s).value, s)
    decreases |pieces|, 1, 0
  {
    if pieces != [] {
      match pieces[0]
      case Literal(t) =>
        MatchSound(pieces[1..], s[|t|..]);
        assert [Literal(t)] + pieces[1..] == pieces;
        SpellsLiteral(t, pieces[1..], MatchPieces(pieces, s).value, s);
      case Capture =>
        TryCaptureSound(pieces[1..], s, SegmentLength(s));
        assert [Capture] + pieces[1..] == pieces;
    }
  }

  lemma {:induction false} TryCaptureSound(rest: seq<Piece>, s: string, k: nat)
    requires k <= SegmentLength(s) && TryCapture(rest, s, k).Some?
    ensures Spells([Capture] + rest, TryCapture(rest, s, k).value, s)
    decreases |rest| + 1, 0, k
  {
    match MatchPieces(rest, s[k..])
    case Some(caps) =>
      MatchSound(rest, s[k..]);
      CaptureHit(rest, caps, s, k);
    case None =>
      TryCaptureSound(rest, s, k - 1);
  }

  /** A capture of the first `k` characters of a segment, then the rest. */
  lemma CaptureHit(rest: seq<Piece>, caps: seq<string>, s: string, k: nat)
    requires 1 <= k <= SegmentLength(s)
    requires Spells(rest, caps, s[k..])
    ensures Spells([Capture] + rest, [s[..k]] + caps, s)
  {
    var c := s[..k];
    assert c <= s && |c| == k;
    assert Segment(c) by {
      assert forall i :: 0 <= i < k ==> c[i] == s[i];
    }
    SpellsCapture(c, rest, caps, s);
  }

  /** Completeness of the match: when some captures spell `s`, the match
      succeeds. */
  lemma {:induction false} MatchComplete(pieces: seq<Piece>, caps: seq<string>, s: string)
    requires Spells(pieces, caps, s)
    ensures MatchPieces(pieces, s).Some?
    decreases |pieces|, 1, 0
  {
    if pieces == [] {
      assert caps == [];
    } else {
      assert [pieces[0]] + pieces[1..] == pieces;
      match pieces[0]
      case Literal(t) =>
        SpellsLiteralPrefix(t, pieces[1..], caps, s);
        SpellsLiteral(t, pieces[1..], caps, s);
        MatchComplete(pieces[1..], caps, s[|t|..]);
      case Capture =>
        SpellsCapturePrefix(pieces[1..], caps, s);
        SpellsCapture(caps[0], pieces[1..], caps[1..], s);
        TryCaptureComplete(pieces[1..], caps[1..], s, |caps[0]|, SegmentLength(s));
    }
  }

  lemma {:induction false} TryCaptureComplete(rest: seq<Piece>, caps: seq<string>, s: string, j: nat, k: nat)
    requires 1 <= j <= k <= |s|
    requires Spells(rest, caps, s[j..])
    ensures TryCapture(rest, s, k).Some?
    decreases |rest| + 1, 0, k
  {
    if MatchPieces(rest, s[k..]).None? {
      if k == j {
        MatchComplete(rest, caps, s[j..]);
      } else {
        TryCaptureComplete(rest, caps, s, j, k - 1);
      }
    }
  }

  /** A compiled pattern matches a path exactly when some segments for its
      captures spell the whole path. */
  lemma MatchExact(pieces: seq<Piece>, path: string)
    ensures MatchPieces(pieces, path).Some? <==> exists caps :: Spells(pieces, caps, path)
  {
    if MatchPieces(pieces, path).Some? {
      MatchSound(pieces, path);
    }
    if exists caps :: Spells(pieces, caps, path) {
      var caps :| Spells(pieces, caps, path);
      MatchComplete(pieces, caps, path);
    }
  }

  // ---------------------------------------------------------------------
  // Path parameters
  // ---------------------------------------------------------------------

  /** `path_params` after the first `n` bindings of a match: cleared, then
      `names[i] := caps[i]` in order. */
  function BindFirst(names: seq<string>, caps: seq<string>, n: nat): map<string, string>
    requires n <= |names| && n <= |caps|
    decreases n
  {
    if n == 0 then map[] else BindFirst(names, caps, n - 1)[names[n - 1] := caps[n - 1]]
  }

  function Min(a: nat, b: nat): nat {
    if a < b then a else b
  }

  /** `path_params` after a match: the binding loop stops at the shorter of
      `param_names` and the captures. */
  function Bind(names: seq<string>, caps: seq<string>): map<string, string> {
    BindFirst(names, caps, Min(|names|, |caps|))
  }

  /** The bound names are exactly the first `n` names ... */
  lemma {:induction false} BindFirstKeys(names: seq<string>, caps: seq<string>, n: nat)
    requires n <= |names| && n <= |caps|
    ensures BindFirst(names, caps, n).Keys == set i | 0 <= i < n :: names[i]
    decreases n
  {
    if n > 0 {
      BindFirstKeys(names, caps, n - 1);
      assert (set i | 0 <= i < n :: names[i]) == (set i | 0 <= i < n - 1 :: names[i]) + {names[n - 1]};
    }
  }

  /** ... and each holds the capture of its last occurrence: a later
      duplicate name wins. */
  lemma {:induction false} BindFirstLastWins(names: seq<string>, caps: seq<string>, n: nat, k: nat)
    requires k < n <= |names| && n <= |caps|
    requires forall j :: k < j < n ==> names[j] != names[k]
    ensures names[k] in BindFirst(names, caps, n) && BindFirst(names, caps, n)[names[k]] == caps[k]
    decreases n
  {
    if k < n - 1 {
      BindFirstLastWins(names, caps, n - 1, k);
    }
  }

  // ---------------------------------------------------------------------
  // Routes and dispatch
  // ---------------------------------------------------------------------

  /** A route handler: it sees the request with its path parameters bound. */
  type Handler = Request -> Response

  /** `RoutePattern`: the method, the pattern, its compiled expression and
      `param_names`, and the handler. */
  datatype Route = Route(
    httpMethod: string,
    pattern: string,
    regex: string,
    pieces: seq<Piece>,
    names: seq<string>,
    handler: Handler)

  /** The route `RoutePattern(m, p, h)` constructs. */
  function MakeRoute(m: string, p: string, h: Handler): Route {
    Route(m, p, RegexSource(Compile(p).pieces), Compile(p).pieces, Compile(p).names, h)
  }

  predicate Matches(route: Route, r: Request) {
    route.httpMethod == r.httpMethod && MatchPieces(route.pieces, r.path).Some?
  }

  /** The request after `handle` and the response it returns. */
  datatype Routed = Routed(request: Request, response: Response)

  /** The response `handle` returns when no route matches. */
  function NotFound(r: Request): Response {
    PlainResponse(404, "Not Found", "Page not found", r.WantsKeepAlive())
  }

  /** The 404: status 404 "Not Found", body "Page not found" as
      `text/plain` with `Content-Length: 14`, and the client's keep-alive
      preference. */
  lemma NotFoundResponse(r: Request)
    ensures var res := NotFound(r);
      && res.statusCode == 404 && res.statusMessage == "Not Found"
      && res.body == "Page not found"
      && res.headers == map["Content-Type" := "text/plain", "Content-Length" := "14"]
      && res.keepAlive == r.WantsKeepAlive()
  {
    assert NatToString(14) == "14";
  }

  /** `handle` from the route at index `i` on. */
  function RouteFrom(routes: seq<Route>, r: Request, i: nat): Routed
    requires i <= |routes|
    decreases |routes| - i
  {
    if i == |routes| then Routed(r, NotFound(r))
    else if routes[i].httpMethod != r.httpMethod then RouteFrom(routes, r, i + 1)
    else
      match MatchPieces(routes[i].pieces, r.path)
      case None => RouteFrom(routes, r, i + 1)
      case Some(caps) =>
        var r' := r.(pathParams := Bind(routes[i].names, caps));
        Routed(r', routes[i].handler(r'))
  }

  /** `handle(req)`: the routes tried in registration order. */
  function RouteRequest(routes: seq<Route>, r: Request): Routed {
    RouteFrom(routes, r, 0)
  }

  lemma RouteFromSkip(routes: seq<Route>, r: Request, i: nat)
    requires i < |routes| && !Matches(routes[i], r)
    ensures RouteFrom(routes, r, i) == RouteFrom(routes, r, i + 1)
  {
  }

  lemma RouteFromHit(routes: seq<Route>, r: Request, i: nat, caps: seq<string>)
    requires i < |routes| && routes[i].httpMethod == r.httpMethod
    requires MatchPieces(routes[i].pieces, r.path) == Some(caps)
    ensures RouteFrom(routes, r, i)
         == Routed(r.(pathParams := Bind(routes[i].names, caps)), routes[i].handler(r.(pathParams := Bind(routes[i].names, caps))))
  {
  }

  /** Routes before `i` that do not match are passed over. */
  lemma {:induction false} RouteFromSkipAll(routes: seq<Route>, r: Request, i: nat)
    requires i <= |routes|
    requires forall j :: 0 <= j < i ==> !Matches(routes[j], r)
    ensures RouteRequest(routes, r) == RouteFrom(routes, r, i)
    decreases i
  {
    if i > 0 {
      RouteFromSkipAll(routes, r, i - 1);
      RouteFromSkip(routes, r, i - 1);
    }
  }

  /** First match wins: the first route whose method and pattern match
      handles the request, with the captures bound as path parameters. */
  lemma RouteFirstMatch(routes: seq<Route>, r: Request, i: nat)
    requires i < |routes| && Matches(routes[i], r)
    requires forall j :: 0 <= j < i ==> !Matches(routes[j], r)
    ensures var r' := r.(pathParams := Bind(routes[i].names, MatchPieces(routes[i].pieces, r.path).value));
      RouteRequest(routes, r) == Routed(r', routes[i].handler(r'))
  {
    RouteFromSkipAll(routes, r, i);
    RouteFromHit(routes, r, i, MatchPieces(routes[i].pieces, r.path).value);
  }

  /** Without a matching route the request is left as it is and the answer
      is the 404. */
  lemma RouteNoMatch(routes: seq<Route>, r: Request)
    requires forall j :: 0 <= j < |routes| ==> !Matches(routes[j], r)
    ensures RouteRequest(routes, r) == Routed(r, NotFound(r))
  {
    RouteFromSkipAll(routes, r, |routes|);
  }

  /** Registering a route later does not change how a request that an
      earlier route matches is handled. */
  lemma RouteAppendKeeps(routes: seq<Route>, route: Route, r: Request, i: nat)
    requires i < |routes| && Matches(routes[i], r)
    ensures RouteRequest(routes + [route], r) == RouteRequest(routes, r)
  {
    var first := FirstMatching(routes, r, i);
    var all := routes + [route];
    assert forall j :: 0 <= j < first ==> all[j] == routes[j];
    RouteFirstMatch(routes, r, first);
    RouteFirstMatch(all, r, first);
  }

  /** The index of the first matching route, given one at `i`. */
  lemma FirstMatching(routes: seq<Route>, r: Request, i: nat) returns (first: nat)
    requires i < |routes| && Matches(routes[i], r)
    ensures first <= i && Matches(routes[first], r)
    ensures forall j :: 0 <= j < first ==> !Matches(routes[j], r)
  {
    first := 0;
    while !Matches(routes[first], r)
      invariant first <= i
      invariant forall j :: 0 <= j < first ==> !Matches(routes[j], r)
      decreases i - first
    {
      first := first + 1;
    }
  }

  /** For a compiled route, a match captures one value per name, so every
      name is bound. */
  lemma MatchedRouteBindsAll(p: string, path: string)
    requires MatchPieces(Compile(p).pieces, path).Some?
    ensures var caps := MatchPieces(Compile(p).pieces, path).value;
      Bind(Compile(p).names, caps).Keys == set i | 0 <= i < |Compile(p).names| :: Compile(p).names[i]
  {
    var caps := MatchPieces(Compile(p).pieces, path).value;
    MatchSound(Compile(p).pieces, path);
    CompileNamesCountColons(p);
    BindFirstKeys(Compile(p).names, caps, |Compile(p).names|);
  }

  /** `Router`: the routes in registration order. */
  class Router {
    var routes: seq<Route>

    constructor()
      ensures routes == []
    {
      routes := [];
    }

    /** `routes.emplace_back(m, p, h)`: the `RoutePattern` constructor. */
    method Add(m: string, p: string, h: Handler)
      modifies this
      ensures routes == old(routes) + [MakeRoute(m, p, h)]
    {
      var regex, pieces, names := CompilePattern(p);
      routes := routes + [Route(m, p, regex, pieces, names, h)];
    }

    method Get(p: string, h: Handler)
      modifies this
      ensures routes == old(routes) + [MakeRoute("GET", p, h)]
    {
      Add("GET", p, h);
    }

    method Post(p: string, h: Handler)
      modifies this
      ensures routes == old(routes) + [MakeRoute("POST", p, h)]
    {
      Add("POST", p, h);
    }

    method Put(p: string, h: Handler)
      modifies this
      ensures routes == old(routes) + [MakeRoute("PUT", p, h)]
    {
      Add("PUT", p, h);
    }

    method Del(p: string, h: Handler)
      modifies this
      ensures routes == old(routes) + [MakeRoute("DELETE", p, h)]
    {
      Add("DELETE", p, h);
    }

    method Patch(p: string, h: Handler)
      modifies this
      ensures routes == old(routes) + [MakeRoute("PATCH", p, h)]
    {
      Add("PATCH", p, h);
    }

    /** `handle`: the request's path parameters are rebound on a match, and
        the matching route's handler answers; otherwise the 404. */
    method Handle(req: HttpRequest) returns (res: Response)
      modifies req
      ensures Routed(req.Value(), res) == RouteRequest(routes, old(req.Value()))
    {
      ghost var r := req.Value();
      var i := 0;
      while i < |routes|
        invariant i <= |routes|
        invariant req.Value() == r
        invariant RouteFrom(routes, r, i) == RouteRequest(routes, r)
        decreases |routes| - i
      {
        var route := routes[i];
        if route.httpMethod != req.httpMethod {
          RouteFromSkip(routes, r, i);
          i := i + 1;
          continue;
        }
        var m := MatchPieces(route.pieces, req.path);
        if m.Some? {
          RouteFromHit(routes, r, i, m.value);
          res := Dispatch(req, route, m.value);
          return;
        }
        RouteFromSkip(routes, r, i);
        i := i + 1;
      }
      RouteNotFound(routes, r);
      res := RespondNotFound(req.Value());
    }
  }

  /** A match: the path parameters bound, then the route's handler. */
  method Dispatch(req: HttpRequest, route: Route, caps: seq<string>) returns (res: Response)
    modifies req
    ensures req.Value() == old(req.Value()).(pathParams := Bind(route.names, caps))
    ensures res == route.handler(req.Value())
  {
    BindPathParams(req, route.names, caps);
    res := route.handler(req.Value());
  }

  /** The 404 of `handle`, built as the source builds it. */
  method RespondNotFound(r: Request) returns (res: Response)
    ensures res == NotFound(r)
  {
    var notFound := new HttpResponse();
    notFound.SetStatus(404);
    notFound.statusMessage := "Not Found";
    notFound.SetBody("Page not found", "text/plain");
    notFound.keepAlive := r.WantsKeepAlive();
    res := notFound.Value();
  }

  lemma RouteNotFound(routes: seq<Route>, r: Request)
    ensures RouteFrom(routes, r, |routes|) == Routed(r, NotFound(r))
  {
  }

  /** The binding loop of `handle`: `path_params` cleared, then each name
      bound to its capture while both last. */
  method BindPathParams(req: HttpRequest, names: seq<string>, caps: seq<string>)
    modifies req
    ensures req.Value() == old(req.Value()).(pathParams := Bind(names, caps))
  {
    req.pathParams := map[];
    var i := 0;
    while i < |names| && i + 1 < |caps| + 1
      invariant i <= |names| && i <= |caps|
      invariant req.Value() == old(req.Value()).(pathParams := BindFirst(names, caps, i))
      decreases |names| - i
    {
      req.pathParams := req.pathParams[names[i] := caps[i]];
      i := i + 1;
    }
  }
}
