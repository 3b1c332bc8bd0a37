/**
 * The quote-aware tokenizer (CliSplitter.java). A left-to-right scan splits
 * the command at spaces outside quotes; a cleanup pass then drops empty
 * pieces, strips one surrounding quote from each piece and unescapes `\"`.
 */
module CliSplitter {
  import opened Outcomes

  // ---------------------------------------------------------------------
  // Boundary detection

  /** The character at `i` is a `"` not preceded by a backslash: it flips the quote state. */
  predicate Toggles(s: string, i: nat)
    requires i < |s|
  {
    s[i] == '"' && (i == 0 || s[i - 1] != '\\')
  }

  /** The `inString` flag after the scan has read s[..n]. */
  function InQuote(s: string, n: nat): bool
    requires n <= |s|
  {
    if n == 0 then false else InQuote(s, n - 1) != Toggles(s, n - 1)
  }

  /** Position `j` splits the command: a space outside quotes. */
  predicate IsBoundary(s: string, j: nat)
    requires j < |s|
  {
    s[j] == ' ' && !InQuote(s, j)
  }

  /** The first boundary at or after `from`, or |s| when there is none. */
  function NextBoundary(s: string, from: nat): (k: nat)
    requires from <= |s|
    decreases |s| - from
    ensures from <= k <= |s|
  {
    if from == |s| then |s|
    else if IsBoundary(s, from) then from
    else NextBoundary(s, from + 1)
  }

  /** The pieces of s[from..] between consecutive boundaries, empty ones included. */
  function PiecesFrom(s: string, from: nat): seq<string>
    requires from <= |s|
    decreases |s| - from
  {
    var k := NextBoundary(s, from);
    if k == |s| then [s[from..]] else [s[from..k]] + PiecesFrom(s, k + 1)
  }

  function Pieces(s: string): seq<string> {
    PiecesFrom(s, 0)
  }

  // ---------------------------------------------------------------------
  // Cleanup

  /** Drop one leading `"`, then one trailing `"`. */
  function StripQuotes(t: string): string {
    var a := if |t| > 0 && t[0] == '"' then t[1..] else t;
    if |a| > 0 && a[|a| - 1] == '"' then a[..|a| - 1] else a
  }

  /** String.replace("\\\"", "\""): every `\"`, scanned left to right, becomes `"`. */
  function Unescape(t: string): string
    decreases |t|
  {
    if |t| >= 2 && t[0] == '\\' && t[1] == '"' then "\"" + Unescape(t[2..])
    else if t == [] then []
    else [t[0]] + Unescape(t[1..])
  }

  /** The cleanup pass: filter out empty pieces, strip and unescape the rest. */
  function Clean(ps: seq<string>): (r: seq<string>)
    ensures |r| <= |ps|
  {
    if ps == [] then []
    else (if ps[0] == "" then [] else [Unescape(StripQuotes(ps[0]))]) + Clean(ps[1..])
  }

  /** How many pieces are non-empty. */
  function NonEmptyCount(ps: seq<string>): nat {
    if ps == [] then 0 else (if ps[0] == "" then 0 else 1) + NonEmptyCount(ps[1..])
  }

  /** Cleaning keeps one token per non-empty piece. */
  lemma {:induction false} CleanLength(ps: seq<string>)
    ensures |Clean(ps)| == NonEmptyCount(ps)
  {
    if ps != [] {
      CleanLength(ps[1..]);
    }
  }

  /**
   * The non-empty piece at `i`, the j-th non-empty one, becomes token j with
   * its quotes stripped and its escaped quotes unescaped.
   */
  lemma {:induction false} CleanAt(ps: seq<string>, i: nat)
    requires i < |ps| && ps[i] != ""
    ensures NonEmptyCount(ps[..i]) < |Clean(ps)|
    ensures Clean(ps)[NonEmptyCount(ps[..i])] == Unescape(StripQuotes(ps[i]))
  {
    var head := if ps[0] == "" then [] else [Unescape(StripQuotes(ps[0]))];
    assert Clean(ps) == head + Clean(ps[1..]);
    if i > 0 {
      assert ps[..i][1..] == ps[1..][..i - 1];
      CleanAt(ps[1..], i - 1);
    }
  }

  /** What `split` returns: the cleaned pieces, or MalformedCommand when a quote is left open. */
  function Tokens(cmd: string): Result<seq<string>> {
    if InQuote(cmd, |cmd|) then Failure(MalformedCommand) else Success(Clean(Pieces(cmd)))
  }

  /** split */
  method Split(cmd: string) returns (r: Result<seq<string>>)
    ensures r == Tokens(cmd)
  {
    var parts: seq<string> := [];
    var lastPos := 0;
    var inString := false;
    for i := 0 to |cmd|
      invariant lastPos <= i
      invariant inString == InQuote(cmd, i)
      invariant NextBoundary(cmd, lastPos) >= i
      invariant parts + PiecesFrom(cmd, lastPos) == Pieces(cmd)
    {
      ScanStep(cmd, lastPos, i);
      if cmd[i] == '"' && (i == 0 || cmd[i - 1] != '\\') {
        inString := !inString;
      }
      if !inString && cmd[i] == ' ' {
        assert IsBoundary(cmd, i);
        assert (parts + [cmd[lastPos..i]]) + PiecesFrom(cmd, i + 1) == parts + PiecesFrom(cmd, lastPos);
        parts := parts + [cmd[lastPos..i]];
        lastPos := i + 1;
      }
    }
    if inString {
      return Failure(MalformedCommand);
    }
    LastPiece(cmd, lastPos);
    parts := parts + [cmd[lastPos..]];
    r := Success(Clean(parts));
  }

  // ---------------------------------------------------------------------
  // How the quote state and the pieces compose

  /** The quote state of a prefix does not depend on what follows it. */
  lemma {:induction false} InQuotePrefix(a: string, b: string, j: nat)
    requires j <= |a|
    ensures InQuote(a + b, j) == InQuote(a, j)
  {
    if j > 0 {
      InQuotePrefix(a, b, j - 1);
    }
  }

  /**
   * After a prefix that ends outside quotes and not with a backslash, the
   * scan of the rest behaves as if the rest were scanned alone.
   */
  lemma {:induction false} InQuoteShift(a: string, b: string, j: nat)
    requires !InQuote(a, |a|) && (a == [] || a[|a| - 1] != '\\')
    requires j <= |b|
    ensures InQuote(a + b, |a| + j) == InQuote(b, j)
  {
    if j == 0 {
      InQuotePrefix(a, b, |a|);
    } else {
      InQuoteShift(a, b, j - 1);
      assert Toggles(a + b, |a| + j - 1) == Toggles(b, j - 1);
    }
  }

  /** NextBoundary stops only at a boundary or at the end. */
  lemma {:induction false} NextBoundaryFound(s: string, from: nat)
    requires from <= |s|
    decreases |s| - from
    ensures NextBoundary(s, from) < |s| ==> IsBoundary(s, NextBoundary(s, from))
  {
    if from < |s| && !IsBoundary(s, from) {
      NextBoundaryFound(s, from + 1);
    }
  }

  /** What one character of the scan tells about the next boundary and the pieces. */
  lemma ScanStep(s: string, from: nat, i: nat)
    requires from <= i < |s| && NextBoundary(s, from) >= i
    ensures IsBoundary(s, i) ==> NextBoundary(s, from) == i
    ensures IsBoundary(s, i) ==> PiecesFrom(s, from) == [s[from..i]] + PiecesFrom(s, i + 1)
    ensures !IsBoundary(s, i) ==> NextBoundary(s, from) > i
  {
    NextBoundaryFound(s, from);
    NextBoundaryMinimal(s, from);
  }

  /** With no boundary left, the rest is one piece. */
  lemma LastPiece(s: string, from: nat)
    requires from <= |s| && NextBoundary(s, from) >= |s|
    ensures PiecesFrom(s, from) == [s[from..]]
  {
  }

  /** No boundary comes before NextBoundary. */
  lemma {:induction false} NextBoundaryMinimal(s: string, from: nat)
    requires from <= |s|
    decreases |s| - from
    ensures forall j :: from <= j < NextBoundary(s, from) ==> !IsBoundary(s, j)
  {
    if from < |s| && !IsBoundary(s, from) {
      NextBoundaryMinimal(s, from + 1);
    }
  }

  /** NextBoundary is the first boundary. */
  lemma {:induction false} NextBoundaryIsFirst(s: string, from: nat, k: nat)
    requires from <= k <= |s|
    requires k < |s| ==> IsBoundary(s, k)
    requires forall j :: from <= j < k ==> !IsBoundary(s, j)
    decreases k - from
    ensures NextBoundary(s, from) == k
  {
    if from < k {
      NextBoundaryIsFirst(s, from + 1, k);
    }
  }

  lemma NextBoundaryShift(a: string, b: string, j: nat)
    requires !InQuote(a, |a|) && (a == [] || a[|a| - 1] != '\\')
    requires j <= |b|
    ensures NextBoundary(a + b, |a| + j) == |a| + NextBoundary(b, j)
  {
    var s := a + b;
    var k := NextBoundary(b, j);
    NextBoundaryMinimal(b, j);
    NextBoundaryFound(b, j);
    forall x | |a| + j <= x <= |a| + k && x < |s|
      ensures IsBoundary(s, x) == IsBoundary(b, x - |a|)
    {
      InQuoteShift(a, b, x - |a|);
    }
    NextBoundaryIsFirst(s, |a| + j, |a| + k);
  }

  /** NextBoundaryShift for a string cut at n. */
  lemma NextBoundaryCut(s: string, n: nat, j: nat)
    requires n <= |s| && !InQuote(s, n) && (n == 0 || s[n - 1] != '\\')
    requires j <= |s| - n
    ensures NextBoundary(s, n + j) == n + NextBoundary(s[n..], j)
  {
    var a := s[..n];
    assert s == a + s[n..];
    InQuotePrefix(a, s[n..], n);
    NextBoundaryShift(a, s[n..], j);
  }

  /**
   * PiecesFrom at two positions agree when the next boundaries lie at the
   * same distance, the pieces up to them are equal and so are the rests.
   */
  lemma PiecesAgree(s: string, f: nat, t: string, g: nat)
    requires f <= |s| && g <= |t|
    requires NextBoundary(s, f) - f == NextBoundary(t, g) - g
    requires NextBoundary(t, g) == |t| <==> NextBoundary(s, f) == |s|
    requires s[f..NextBoundary(s, f)] == t[g..NextBoundary(t, g)]
    requires NextBoundary(s, f) == |s| ==> s[f..] == t[g..]
    requires NextBoundary(t, g) < |t|
         ==> PiecesFrom(s, NextBoundary(s, f) + 1) == PiecesFrom(t, NextBoundary(t, g) + 1)
    ensures PiecesFrom(s, f) == PiecesFrom(t, g)
  {
  }

  /** After such a cut, the rest is split as if it stood alone. */
  lemma {:induction false} PiecesShift(s: string, n: nat, j: nat)
    requires n <= |s| && !InQuote(s, n) && (n == 0 || s[n - 1] != '\\')
    requires j <= |s| - n
    decreases |s| - n - j
    ensures PiecesFrom(s, n + j) == PiecesFrom(s[n..], j)
  {
    var k := NextBoundary(s[n..], j);
    if k < |s| - n {
      PiecesShift(s, n, k + 1);
    }
    PiecesShiftStep(s, n, j);
  }

  /** One step of PiecesShift, given the result for the rest after the next boundary. */
  lemma PiecesShiftStep(s: string, n: nat, j: nat)
    requires n <= |s| && !InQuote(s, n) && (n == 0 || s[n - 1] != '\\')
    requires j <= |s| - n
    requires NextBoundary(s[n..], j) < |s| - n
         ==> PiecesFrom(s, n + NextBoundary(s[n..], j) + 1) == PiecesFrom(s[n..], NextBoundary(s[n..], j) + 1)
    ensures PiecesFrom(s, n + j) == PiecesFrom(s[n..], j)
  {
    var b := s[n..];
    var k := NextBoundary(b, j);
    NextBoundaryCut(s, n, j);
    assert s[n + j..n + k] == b[j..k];
    assert s[n + j..] == b[j..];
    PiecesAgree(s, n + j, b, j);
  }

  lemma NextBoundaryConcat(a: string, b: string, from: nat)
    requires !InQuote(a, |a|)
    requires from <= |a|
    ensures NextBoundary(a + " " + b, from) == NextBoundary(a, from)
  {
    var rest := " " + b;
    var s := a + rest;
    assert a + " " + b == s;
    var k := NextBoundary(a, from);
    NextBoundaryMinimal(a, from);
    NextBoundaryFound(a, from);
    SameBoundaries(a, rest, from);
    InQuotePrefix(a, rest, |a|);
    assert IsBoundary(s, |a|);
    NextBoundaryIsFirst(s, from, k);
  }

  lemma {:induction false} PiecesFromConcat(a: string, b: string, from: nat)
    requires !InQuote(a, |a|)
    requires from <= |a|
    decreases |a| - from
    ensures PiecesFrom(a + " " + b, from) == PiecesFrom(a, from) + Pieces(b)
  {
    var k := NextBoundary(a, from);
    if k < |a| {
      PiecesFromConcat(a, b, k + 1);
    }
    PiecesConcatStep(a, b, from);
  }

  /** One step of PiecesFromConcat, given the result after the next boundary of a. */
  lemma PiecesConcatStep(a: string, b: string, from: nat)
    requires !InQuote(a, |a|)
    requires from <= |a|
    requires NextBoundary(a, from) < |a| ==>
               PiecesFrom(a + " " + b, NextBoundary(a, from) + 1)
               == PiecesFrom(a, NextBoundary(a, from) + 1) + Pieces(b)
    ensures PiecesFrom(a + " " + b, from) == PiecesFrom(a, from) + Pieces(b)
  {
    var s := a + " " + b;
    var k := NextBoundary(a, from);
    NextBoundaryConcat(a, b, from);
    if k < |a| {
      assert s[from..k] == a[from..k];
      assert PiecesFrom(s, from) == [s[from..k]] + PiecesFrom(s, k + 1);
    } else {
      assert s[from..|a|] == a[from..];
      AfterSpace(a, b);
      assert PiecesFrom(s, from) == [s[from..|a|]] + PiecesFrom(s, |a| + 1);
    }
  }

  /** Boundaries inside a prefix are those of the prefix alone. */
  lemma SameBoundaries(a: string, rest: string, from: nat)
    requires from <= |a|
    ensures forall m :: from <= m < |a| ==> IsBoundary(a + rest, m) == IsBoundary(a, m)
  {
    forall m | from <= m < |a|
      ensures IsBoundary(a + rest, m) == IsBoundary(a, m)
    {
      InQuotePrefix(a, rest, m);
    }
  }

  /** What follows a space outside quotes is split as if it stood alone. */
  lemma AfterSpace(a: string, b: string)
    requires !InQuote(a, |a|)
    ensures PiecesFrom(a + " " + b, |a| + 1) == Pieces(b)
  {
    var a' := a + " ";
    var s := a' + b;
    InQuotePrefix(a, " ", |a|);
    InQuotePrefix(a', b, |a'|);
    assert s[|a'|..] == b;
    PiecesShift(s, |a'|, 0);
  }

  /** Splitting at a space that lies outside quotes splits the pieces. */
  lemma PiecesConcat(a: string, b: string)
    requires !InQuote(a, |a|)
    ensures Pieces(a + " " + b) == Pieces(a) + Pieces(b)
    ensures InQuote(a + " " + b, |a + " " + b|) == InQuote(b, |b|)
  {
    PiecesFromConcat(a, b, 0);
    InQuotePrefix(a, " ", |a|);
    assert a + " " + b == (a + " ") + b;
    InQuoteShift(a + " ", b, |b|);
  }

  lemma {:induction false} CleanConcat(x: seq<string>, y: seq<string>)
    ensures Clean(x + y) == Clean(x) + Clean(y)
  {
    if x != [] {
      assert (x + y)[1..] == x[1..] + y;
      CleanConcat(x[1..], y);
    } else {
      assert x + y == y;
    }
  }

  /**
   * The tokens of `a + " " + b`, where `a` ends outside quotes, are the
   * tokens of `a` followed by those of `b`.
   */
  lemma TokensConcat(a: string, b: string)
    requires !InQuote(a, |a|)
    ensures Tokens(a).Success?
    ensures Tokens(a + " " + b) ==
              if Tokens(b).Failure? then Tokens(b) else Success(Tokens(a).value + Tokens(b).value)
  {
    PiecesConcat(a, b);
    CleanConcat(Pieces(a), Pieces(b));
  }

  // ---------------------------------------------------------------------
  // Spaces outside quotes produce no tokens

  /** The empty command has no tokens. */
  lemma EmptyCommand()
    ensures Tokens("") == Success([])
  {
    assert PiecesFrom("", 0) == [""];
    assert Clean([""]) == [];
  }

  lemma LeadingSpace(s: string)
    ensures Tokens(" " + s) == Tokens(s)
  {
    EmptyCommand();
    TokensConcat("", s);
    assert "" + " " + s == " " + s;
    if Tokens(s).Success? {
      assert [] + Tokens(s).value == Tokens(s).value;
    }
  }

  lemma TrailingSpace(s: string)
    ensures Tokens(s + " ") == Tokens(s)
  {
    if InQuote(s, |s|) {
      InQuotePrefix(s, " ", |s|);
      assert InQuote(s + " ", |s + " "|);
    } else {
      EmptyCommand();
      TokensConcat(s, "");
      assert s + " " + "" == s + " ";
      assert Tokens(s).value + [] == Tokens(s).value;
    }
  }

  lemma RepeatedSpace(a: string, b: string)
    requires !InQuote(a, |a|)
    ensures Tokens(a + "  " + b) == Tokens(a + " " + b)
  {
    var a' := a + " ";
    InQuotePrefix(a, " ", |a|);
    assert a + "  " + b == a' + " " + b;
    TokensConcat(a', b);
    TokensConcat(a, b);
    TrailingSpace(a);
  }

  // ---------------------------------------------------------------------
  // Round trip: words joined with single spaces split back to themselves

  /** A token as typed: a bare word, or a quoted text whose `"` are escaped. */
  datatype Word = Bare(text: string) | Quoted(text: string)

  /** Bare words are non-empty and hold no space, quote or backslash; quoted texts hold no backslash. */
  predicate WordOk(w: Word) {
    match w
    case Bare(t) => t != [] && forall i :: 0 <= i < |t| ==> t[i] != ' ' && t[i] != '"' && t[i] != '\\'
    case Quoted(t) => forall i :: 0 <= i < |t| ==> t[i] != '\\'
  }

  /** Every `"` written as `\"`. */
  function Escape(t: string): string {
    if t == [] then [] else (if t[0] == '"' then "\\\"" else [t[0]]) + Escape(t[1..])
  }

  function Render(w: Word): string {
    match w
    case Bare(t) => t
    case Quoted(t) => "\"" + Escape(t) + "\""
  }

  /** The words rendered and joined with single spaces. */
  function Join(ws: seq<Word>): string {
    if ws == [] then ""
    else if |ws| == 1 then Render(ws[0])
    else Render(ws[0]) + " " + Join(ws[1..])
  }

  function Texts(ws: seq<Word>): (r: seq<string>)
    ensures |r| == |ws| && forall i :: 0 <= i < |ws| ==> r[i] == ws[i].text
  {
    if ws == [] then [] else [ws[0].text] + Texts(ws[1..])
  }

  lemma {:induction false} UnescapeEscape(t: string)
    requires forall i :: 0 <= i < |t| ==> t[i] != '\\'
    ensures Unescape(Escape(t)) == t
  {
    if t != [] {
      UnescapeEscape(t[1..]);
      var e := Escape(t);
      if t[0] == '"' {
        assert e[2..] == Escape(t[1..]);
      } else {
        assert e[1..] == Escape(t[1..]);
      }
    }
  }

  lemma {:induction false} UnescapePlain(t: string)
    requires forall i :: 0 <= i < |t| ==> t[i] != '\\'
    ensures Unescape(t) == t
  {
    if t != [] {
      UnescapePlain(t[1..]);
    }
  }

  /** Text without quotes never enters a quoted run. */
  lemma {:induction false} NoQuoteNoToggle(s: string, j: nat)
    requires forall i :: 0 <= i < |s| ==> s[i] != '"'
    requires j <= |s|
    ensures !InQuote(s, j)
  {
    if j > 0 {
      NoQuoteNoToggle(s, j - 1);
    }
  }

  /** Inside a quoted run, escaped text keeps the run open. */
  lemma {:induction false} EscapedStaysQuoted(p: string, t: string)
    requires p != [] && InQuote(p, |p|) && p[|p| - 1] != '\\'
    requires forall i :: 0 <= i < |t| ==> t[i] != '\\'
    ensures forall q :: |p| <= q <= |p + Escape(t)| ==> InQuote(p + Escape(t), q)
    ensures (p + Escape(t))[|p + Escape(t)| - 1] != '\\'
    decreases |t|
  {
    if t != [] {
      var c := if t[0] == '"' then "\\\"" else [t[0]];
      var p' := p + c;
      var s := p + Escape(t);
      assert s == p' + Escape(t[1..]);
      InQuotePrefix(p, c, |p|);
      assert InQuote(p', |p|);
      assert InQuote(p', |p| + 1);
      assert InQuote(p', |p'|);
      EscapedStaysQuoted(p', t[1..]);
      forall q | |p| <= q <= |p'|
        ensures InQuote(s, q)
      {
        InQuotePrefix(p', Escape(t[1..]), q);
      }
    } else {
      assert p + Escape(t) == p;
    }
  }

  /** A rendered word is a single piece that ends outside quotes and cleans back to its text. */
  lemma RenderSingle(w: Word)
    requires WordOk(w)
    ensures !InQuote(Render(w), |Render(w)|)
    ensures Render(w) != [] && Render(w)[|Render(w)| - 1] != '\\'
    ensures Tokens(Render(w)) == Success([w.text])
  {
    match w
    case Bare(t) =>
      NoQuoteNoToggle(t, |t|);
      NextBoundaryIsFirst(t, 0, |t|);
      UnescapePlain(t);
      assert Pieces(t) == [t];
      assert t[0] != '"' && t[|t| - 1] != '"';
      assert StripQuotes(t) == t;
      assert Clean([t]) == [t];
    case Quoted(t) =>
      RenderQuoted(t);
  }

  lemma RenderQuoted(t: string)
    requires forall i :: 0 <= i < |t| ==> t[i] != '\\'
    ensures !InQuote(Render(Quoted(t)), |Render(Quoted(t))|)
    ensures Tokens(Render(Quoted(t))) == Success([t])
  {
    var e := Escape(t);
    var open := "\"" + e;
    var r := open + "\"";
    assert r == Render(Quoted(t));
    assert InQuote("\"", 1);
    EscapedStaysQuoted("\"", t);
    forall q | 1 <= q <= |open|
      ensures InQuote(r, q)
    {
      InQuotePrefix(open, "\"", q);
    }
    assert Toggles(r, |open|);
    assert !InQuote(r, |r|);
    forall j | 0 <= j < |r|
      ensures !IsBoundary(r, j)
    {
      if 0 < j < |open| {
        assert InQuote(r, j);
      }
    }
    NextBoundaryIsFirst(r, 0, |r|);
    assert Pieces(r) == [r];
    assert r[1..] == e + "\"";
    assert StripQuotes(r) == e;
    UnescapeEscape(t);
    assert Clean([r]) == [t];
  }

  lemma {:induction false} RoundTrip(ws: seq<Word>)
    requires forall i :: 0 <= i < |ws| ==> WordOk(ws[i])
    ensures Tokens(Join(ws)) == Success(Texts(ws))
  {
    if ws == [] {
      assert Pieces("") == [""];
    } else if |ws| == 1 {
      RenderSingle(ws[0]);
    } else {
      RenderSingle(ws[0]);
      RoundTrip(ws[1..]);
      TokensConcat(Render(ws[0]), Join(ws[1..]));
    }
  }

  /** A lone pair of quotes is one empty token. */
  lemma EmptyQuotedToken()
    ensures Tokens("\"\"") == Success([""])
  {
    RoundTrip([Quoted("")]);
    assert Escape("") == "";
    assert Join([Quoted("")]) == "\"\"";
    assert Texts([Quoted("")]) == [""];
  }

  // ---------------------------------------------------------------------
  // An unclosed quote, and the number of tokens

  /** A quote that opens after the last closed run and is never closed makes split fail. */
  lemma UnclosedQuoteFails(a: string, t: string)
    requires !InQuote(a, |a|)
    requires forall i :: 0 <= i < |t| ==> t[i] != '"'
    ensures Tokens(a + " " + "\"" + t) == Failure(MalformedCommand)
  {
    var s := a + " " + "\"" + t;
    UnclosedAfter(a, t);
    assert InQuote(s, |s|);
  }

  lemma UnclosedAfter(a: string, t: string)
    requires !InQuote(a, |a|)
    requires forall i :: 0 <= i < |t| ==> t[i] != '"'
    ensures InQuote(a + " " + "\"" + t, |a| + |t| + 2)
  {
    var q := "\"" + t;
    var a' := a + " ";
    assert a + " " + "\"" + t == a' + q;
    InQuotePrefix(a, " ", |a|);
    OpenQuote(t);
    InQuoteShift(a', q, |q|);
  }

  /** A quote followed by no further quote leaves the scan inside quotes. */
  lemma OpenQuote(t: string)
    requires forall i :: 0 <= i < |t| ==> t[i] != '"'
    ensures InQuote("\"" + t, |t| + 1)
  {
    var q := "\"" + t;
    forall i | 1 <= i < |q|
      ensures !Toggles(q, i)
    {
      assert q[i] == t[i - 1];
    }
    UnclosedRun(q, |q|);
  }

  lemma {:induction false} UnclosedRun(q: string, j: nat)
    requires q != [] && q[0] == '"'
    requires forall i :: 1 <= i < |q| ==> !Toggles(q, i)
    requires 1 <= j <= |q|
    ensures InQuote(q, j)
  {
    if j > 1 {
      UnclosedRun(q, j - 1);
    }
  }

  /** The number of boundaries in s[from..]. */
  function CountBoundaries(s: string, from: nat): nat
    requires from <= |s|
    decreases |s| - from
  {
    if from == |s| then 0 else (if IsBoundary(s, from) then 1 else 0) + CountBoundaries(s, from + 1)
  }

  lemma {:induction false} NoBoundaryCount(s: string, from: nat, k: nat)
    requires from <= k <= |s|
    requires forall j :: from <= j < k ==> !IsBoundary(s, j)
    decreases k - from
    ensures CountBoundaries(s, from) == CountBoundaries(s, k)
  {
    if from < k {
      NoBoundaryCount(s, from + 1, k);
    }
  }

  lemma {:induction false} PiecesCount(s: string, from: nat)
    requires from <= |s|
    decreases |s| - from
    ensures |PiecesFrom(s, from)| == 1 + CountBoundaries(s, from)
  {
    var k := NextBoundary(s, from);
    NextBoundaryMinimal(s, from);
    NextBoundaryFound(s, from);
    NoBoundaryCount(s, from, k);
    if k < |s| {
      PiecesCount(s, k + 1);
    }
  }

  /** At most one more token than there are spaces outside quotes. */
  lemma TokenCountBound(cmd: string)
    requires Tokens(cmd).Success?
    ensures |Tokens(cmd).value| <= 1 + CountBoundaries(cmd, 0)
  {
    PiecesCount(cmd, 0);
  }
}
