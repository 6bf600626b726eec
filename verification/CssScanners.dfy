/** The scanning loops of pseudo.ts: hand-written, with lookahead, lookbehind and
    jumps.  Each is proved to compute what the automaton of CssAutomaton computes
    one character at a time: comments out, unquoted urls passed over, declarations
    cut at their semicolons. */
module CssScanners {
  import opened JsText
  import opened CssAutomaton
  import opened CssImportant
  import opened CssRules

  // ---------- the automaton, by index ----------

  /** The pieces cut off so far, and where the current one starts. */
  datatype Cuts = Cuts(decls: seq<string>, start: nat)

  /** What is known before an index: the automaton's state, what the stripper has
      let out (a held-back slash apart), and the pieces cut. */
  datatype Row = Row(st: State, out: string, cuts: Cuts)

  function NextRow(css: string, i: nat, r: Row): Row
    requires i < |css| && r.cuts.start <= i
  {
    Row(Next(r.st, css[i]),
        r.out + Emit(r.st.mode, css[i]),
        if css[i] == ';' && AtTop(r.st) then Cuts(r.cuts.decls + [css[r.cuts.start..i]], i + 1) else r.cuts)
  }

  function Rows(css: string, i: nat, r: Row): (rows: seq<Row>)
    requires i <= |css| && r.cuts.start <= i
    ensures |rows| == |css| - i + 1 && rows[0] == r
    ensures forall k :: 0 <= k < |rows| ==> rows[k].cuts.start <= i + k
    decreases |css| - i
  {
    if i == |css| then [r] else [r] + Rows(css, i + 1, NextRow(css, i, r))
  }

  /** What is known before index `i`; beyond the end nothing changes any more. */
  function RowAt(css: string, i: nat): (r: Row)
    ensures r.cuts.start <= i && r.cuts.start <= |css|
  {
    Rows(css, 0, Row(START, "", Cuts([], 0)))[if i <= |css| then i else |css|]
  }

  function StateAt(css: string, i: nat): State { RowAt(css, i).st }
  function OutAt(css: string, i: nat): string { RowAt(css, i).out }
  function CutsAt(css: string, i: nat): Cuts { RowAt(css, i).cuts }

  /** What the stripper has written before index `i`. */
  function WrittenAt(css: string, i: nat): string { OutAt(css, i) + Flush(StateAt(css, i).mode) }

  lemma TailAt(r: Row, tail: seq<Row>, k: nat)
    requires 0 < k < |tail|
    ensures ([r] + tail)[k] == tail[k - 1] && ([r] + tail)[k + 1] == tail[k]
  {
  }

  lemma {:induction false} RowsNext(css: string, i: nat, r: Row, k: nat)
    requires i + k < |css| && r.cuts.start <= i
    ensures Rows(css, i, r)[k + 1] == NextRow(css, i + k, Rows(css, i, r)[k])
    decreases k
  {
    if k == 0 {
    } else {
      RowsNext(css, i + 1, NextRow(css, i, r), k - 1);
      TailAt(r, Rows(css, i + 1, NextRow(css, i, r)), k);
    }
  }

  lemma {:induction false} RowNext(css: string, i: nat)
    requires i < |css|
    ensures RowAt(css, i + 1) == NextRow(css, i, RowAt(css, i))
  {
    RowsNext(css, 0, Row(START, "", Cuts([], 0)), i);
  }

  lemma {:induction false} StateAtRuns(css: string, i: nat)
    requires i <= |css|
    ensures StateAt(css, i) == Run(START, css[..i]) && OutAt(css, i) == Out(START, css[..i])
  {
    if i == 0 {
    } else {
      StateAtRuns(css, i - 1);
      RowNext(css, i - 1);
      assert css[..i] == css[..i - 1] + [css[i - 1]];
      RunAppend(START, css[..i - 1], [css[i - 1]]);
      OutAppend(START, css[..i - 1], [css[i - 1]]);
      RunOne(StateAt(css, i - 1), css[i - 1]);
    }
  }

  lemma WrittenAtEnd(css: string, i: nat)
    requires i >= |css|
    ensures WrittenAt(css, i) == Strip(css)
    decreases i
  {
    if i > |css| {
      WrittenAtEnd(css, i - 1);
    } else {
      StateAtRuns(css, i);
      assert css[..i] == css;
    }
  }

  /** The pieces cut so far and the split of the rest make up the whole split. */
  lemma {:induction false} CutsAtSplit(css: string, i: nat)
    requires i <= |css|
    ensures var c := CutsAt(css, i);
      c.decls + SplitFrom(StateAt(css, i), css[c.start..i], css[i..]) == Split(css)
  {
    if i == 0 {
      assert css[0..] == css && css[0..0] == "";
      AppendEmpty(Split(css));
    } else {
      CutsAtSplit(css, i - 1);
      RowNext(css, i - 1);
      var c, st := CutsAt(css, i - 1), StateAt(css, i - 1);
      assert css[i - 1..][1..] == css[i..];
      if css[i - 1] == ';' && AtTop(st) {
        Assoc(c.decls, [css[c.start..i - 1]], SplitFrom(START, "", css[i..]));
        assert css[i..i] == "";
      } else {
        assert css[c.start..i - 1] + [css[i - 1]] == css[c.start..i];
      }
    }
  }

  lemma {:induction false} CutsAtEnd(css: string, i: nat)
    requires i >= |css|
    ensures CutsAt(css, i).decls + [css[CutsAt(css, i).start..]] == Split(css)
    decreases i
  {
    if i > |css| {
      CutsAtEnd(css, i - 1);
    } else {
      CutsAtSplit(css, i);
      assert css[CutsAt(css, i).start..i] == css[CutsAt(css, i).start..];
    }
  }

  /** Between the indices nothing is dropped and nothing is cut. */
  predicate Copies(css: string, i: nat, j: nat) {
    i <= j <= |css| && WrittenAt(css, j) == WrittenAt(css, i) + css[i..j] && CutsAt(css, j) == CutsAt(css, i)
  }

  lemma {:induction false} CopiesOne(css: string, i: nat)
    requires i < |css|
    requires !StateAt(css, i).mode.Comment? && !StateAt(css, i + 1).mode.Comment?
    requires !(css[i] == ';' && AtTop(StateAt(css, i)))
    ensures Copies(css, i, i + 1)
  {
    RowNext(css, i);
    WritesOne(css, i);
    assert css[i..i + 1] == [css[i]];
  }

  lemma {:induction false} WritesOne(css: string, i: nat)
    requires i < |css|
    requires !StateAt(css, i).mode.Comment? && !StateAt(css, i + 1).mode.Comment?
    ensures WrittenAt(css, i + 1) == WrittenAt(css, i) + [css[i]]
  {
    var m, m' := StateAt(css, i).mode, StateAt(css, i + 1).mode;
    RowNext(css, i);
    EmitCopies(StateAt(css, i), css[i]);
    Assoc(OutAt(css, i), Emit(m, css[i]), Flush(m'));
    Assoc(OutAt(css, i), Flush(m), [css[i]]);
  }

  lemma EmitCopies(st: State, c: char)
    requires !st.mode.Comment? && !Next(st, c).mode.Comment?
    ensures Emit(st.mode, c) + Flush(Next(st, c).mode) == Flush(st.mode) + [c]
  {
  }

  lemma CopiesThen(css: string, i: nat, j: nat, k: nat)
    requires Copies(css, i, j) && Copies(css, j, k)
    ensures Copies(css, i, k)
  {
    assert css[i..j] + css[j..k] == css[i..k];
    Assoc(WrittenAt(css, i), css[i..j], css[j..k]);
  }

  // ---------- unquoted urls ----------

  /** `url(` stands at `i`, in any case, and no identifier runs into it. */
  predicate UrlStart(css: string, i: nat) {
    && i + 4 <= |css|
    && (css[i] == 'u' || css[i] == 'U')
    && (css[i + 1] == 'r' || css[i + 1] == 'R')
    && (css[i + 2] == 'l' || css[i + 2] == 'L')
    && css[i + 3] == '('
    && (i == 0 || !IsWord(css[i - 1]))
  }

  /** The first index from `j` on that is not white space. */
  function SkipSpaces(css: string, j: nat): (n: nat)
    requires j <= |css|
    ensures j <= n <= |css|
    decreases |css| - j
  {
    if j < |css| && IsSpace(css[j]) then SkipSpaces(css, j + 1) else j
  }

  /** Just after the first unescaped `)` from `j` on, or the end of the text. */
  function BodyEnd(css: string, j: nat): (n: nat)
    ensures n <= |css| && (j <= |css| ==> j <= n)
    decreases |css| - j
  {
    if j >= |css| then |css|
    else if css[j] == ')' then j + 1
    else BodyEnd(css, if css[j] == '\\' then j + 2 else j + 1)
  }

  /** Where the unquoted url that starts at `i` ends, or -1 if none starts there. */
  function UrlEnd(css: string, i: nat): (n: int)
    ensures n == -1 || i + 4 <= n <= |css|
  {
    if !UrlStart(css, i) then -1
    else
      var j := SkipSpaces(css, i + 4);
      if j < |css| && IsQuote(css[j]) then -1 else BodyEnd(css, j)
  }

  method ScanUnquotedUrl(css: string, i: nat) returns (end: int)
    ensures end == UrlEnd(css, i)
    ensures end == -1 || i + 4 <= end <= |css|
  {
    if !UrlStart(css, i) { return -1; }
    var j := i + 4;
    while j < |css| && IsSpace(css[j])
      invariant i + 4 <= j <= |css| && SkipSpaces(css, j) == SkipSpaces(css, i + 4)
    {
      j := j + 1;
    }
    if j < |css| && IsQuote(css[j]) { return -1; }
    ghost var j0 := j;
    while j < |css| && css[j] != ')'
      invariant i + 4 <= j && BodyEnd(css, j) == BodyEnd(css, j0)
      decreases |css| - j
    {
      if css[j] == '\\' { j := j + 1; }
      j := j + 1;
    }
    return if j < |css| then j + 1 else |css|;
  }

  /** The automaton just after an unquoted url. */
  predicate AfterUrl(css: string, e: nat, depth: nat) {
    var st := StateAt(css, e);
    st.depth == depth && (st.mode == Plain(0) || (e == |css| && (st.mode.UrlHead? || st.mode.UrlBody?)))
  }

  lemma {:induction false} SpacesPass(css: string, j: nat)
    requires j <= |css| && StateAt(css, j).mode.UrlHead?
    ensures var n := SkipSpaces(css, j);
      && Copies(css, j, n) && StateAt(css, n) == StateAt(css, j)
      && (n < |css| ==> !IsSpace(css[n]))
    decreases |css| - j
  {
    if j < |css| && IsSpace(css[j]) {
      RowNext(css, j);
      CopiesOne(css, j);
      SpacesPass(css, j + 1);
      CopiesThen(css, j, j + 1, SkipSpaces(css, j + 1));
    }
  }

  lemma {:induction false} BodyPass(css: string, j: nat)
    requires j <= |css|
    requires StateAt(css, j).mode == UrlBody(false) ||
             (StateAt(css, j).mode.UrlHead? && (j < |css| ==> !IsSpace(css[j]) && !IsQuote(css[j])))
    ensures Copies(css, j, BodyEnd(css, j)) && AfterUrl(css, BodyEnd(css, j), StateAt(css, j).depth)
    decreases |css| - j
  {
    if j >= |css| {
    } else {
      RowNext(css, j);
      CopiesOne(css, j);
      var k := j + 1;
      if css[j] == '\\' && k < |css| {
        RowNext(css, k);
        CopiesOne(css, k);
        CopiesThen(css, j, k, k + 1);
        BodyPass(css, k + 1);
        CopiesThen(css, j, k + 1, BodyEnd(css, j));
      } else if css[j] != ')' && css[j] != '\\' {
        BodyPass(css, k);
        CopiesThen(css, j, k, BodyEnd(css, j));
      }
    }
  }

  /** A reader in plain text goes through `url(`. */
  lemma {:induction false} UrlHeadStates(css: string, i: nat)
    requires UrlStart(css, i)
    requires StateAt(css, i).mode == Plain(0) || StateAt(css, i).mode.Slash?
    ensures var depth := StateAt(css, i).depth;
      && StateAt(css, i + 1) == State(Plain(1), depth) && StateAt(css, i + 2) == State(Plain(2), depth)
      && StateAt(css, i + 3) == State(Plain(3), depth) && StateAt(css, i + 4) == State(UrlHead, depth)
  {
    var depth := StateAt(css, i).depth;
    RowNext(css, i);
    assert StateAt(css, i + 1) == State(Plain(1), depth);
    RowNext(css, i + 1);
    assert StateAt(css, i + 2) == State(Plain(2), depth);
    RowNext(css, i + 2);
    RowNext(css, i + 3);
  }

  lemma {:induction false} UrlHeadPass(css: string, i: nat)
    requires UrlStart(css, i)
    requires StateAt(css, i).mode == Plain(0) || StateAt(css, i).mode.Slash?
    ensures Copies(css, i, i + 4)
  {
    UrlHeadStates(css, i);
    CopiesOne(css, i);
    CopiesOne(css, i + 1);
    CopiesThen(css, i, i + 1, i + 2);
    CopiesOne(css, i + 2);
    CopiesThen(css, i, i + 2, i + 3);
    CopiesOne(css, i + 3);
    CopiesThen(css, i, i + 3, i + 4);
  }

  /** The lookahead scan and the automaton agree on where an unquoted url ends. */
  lemma {:induction false} UrlPass(css: string, i: nat)
    requires UrlEnd(css, i) != -1
    requires StateAt(css, i).mode == Plain(0) || StateAt(css, i).mode.Slash?
    ensures Copies(css, i, UrlEnd(css, i)) && AfterUrl(css, UrlEnd(css, i), StateAt(css, i).depth)
  {
    var j, e := SkipSpaces(css, i + 4), UrlEnd(css, i);
    UrlHeadStates(css, i);
    UrlHeadPass(css, i);
    SpacesPass(css, i + 4);
    BodyPass(css, j);
    CopiesThen(css, i, i + 4, j);
    CopiesThen(css, i, j, e);
  }

  // ---------- the walk of the two loops ----------

  /** How much of `url` ends before index `i`, from the text alone. */
  function Tail(css: string, i: nat): (k: nat)
    requires i <= |css|
    ensures k == 0 <==> i == 0 || !IsWord(css[i - 1])
  {
    if i == 0 then 0 else NextTail(Tail(css, i - 1), css[i - 1])
  }

  /** The automaton's memory of `url` is what stands in the text. */
  lemma {:induction false} StateTail(css: string, i: nat)
    requires i <= |css|
    ensures var m := StateAt(css, i).mode;
      (m.Plain? ==> m.k == Tail(css, i)) && (m.Slash? ==> Tail(css, i) == 0)
  {
    if i == 0 {
    } else {
      StateTail(css, i - 1);
      RowNext(css, i - 1);
    }
  }

  lemma {:induction false} TailIsUrl(css: string, i: nat)
    requires i < |css| && Tail(css, i) == 3 && css[i] == '('
    ensures i >= 3 && UrlStart(css, i - 3)
  {
    assert Tail(css, i - 1) == 2;
    assert Tail(css, i - 2) == 1;
    assert Tail(css, i - 3) == 0;
  }

  /** What holds at index `i` while the loops see no open quote: the automaton
      is in plain text, or past a `url(` that turned out to hold a quote. */
  predicate Walking(css: string, i: nat)
    requires i < |css|
  {
    match StateAt(css, i).mode
    case Plain(k) => 1 <= k <= 3 ==> k <= i && UrlEnd(css, i - k) == -1
    case Slash => css[i] != '*'
    case UrlHead => SkipSpaces(css, i) < |css| && IsQuote(css[SkipSpaces(css, i)])
    case _ => false
  }

  /** The loops' own view at index `i`, `quote` being their open quote. */
  predicate At(css: string, i: nat, quote: Option<Quote>) {
    i < |css| ==>
      if quote.Some? then StateAt(css, i).mode == Quoted(quote.value, false) else Walking(css, i)
  }

  /** No quote, no comment and no url starts at `i`. */
  predicate Ordinary(css: string, i: nat)
    requires i < |css|
  {
    && !IsQuote(css[i]) && UrlEnd(css, i) == -1
    && !(css[i] == '/' && i + 1 < |css| && css[i + 1] == '*')
  }

  lemma {:induction false} WalkStep(css: string, i: nat)
    requires i < |css| && At(css, i, None) && Ordinary(css, i)
    ensures At(css, i + 1, None) && !StateAt(css, i + 1).mode.Comment?
    ensures StateAt(css, i).mode.UrlHead? ==> IsSpace(css[i])
  {
    StateTail(css, i);
    RowNext(css, i);
    if StateAt(css, i).mode == Plain(3) && css[i] == '(' { TailIsUrl(css, i); }
  }

  lemma {:induction false} WalkQuote(css: string, i: nat)
    requires i < |css| && At(css, i, None) && IsQuote(css[i])
    ensures At(css, i + 1, Some(css[i]))
    ensures var st := StateAt(css, i);
      StateAt(css, i + 1) == State(Quoted(css[i], false), st.depth + if st.mode.UrlHead? then 1 else 0)
  {
    RowNext(css, i);
  }

  lemma {:induction false} WalkUrl(css: string, i: nat)
    requires i < |css| && At(css, i, None) && UrlEnd(css, i) != -1
    ensures var e := UrlEnd(css, i);
      At(css, e, None) && Copies(css, i, e) && AfterUrl(css, e, StateAt(css, i).depth)
    ensures !StateAt(css, i).mode.UrlHead?
  {
    StateTail(css, i);
    assert !StateAt(css, i).mode.UrlHead? by { assert !IsSpace(css[i]) && !IsQuote(css[i]); }
    UrlPass(css, i);
  }

  /** Inside a quote an escape takes the next character along. */
  lemma {:induction false} WalkQuoted(css: string, i: nat, q: Quote)
    requires i < |css| && At(css, i, Some(q))
    ensures css[i] != '\\' ==> At(css, i + 1, if css[i] == q then None else Some(q))
    ensures css[i] == '\\' ==> At(css, i + 2, Some(q))
    ensures var m := StateAt(css, i + 1).mode; m.Quoted? || (m == Plain(0) && css[i] != '\\')
    ensures StateAt(css, i + 1).depth == StateAt(css, i).depth
    ensures css[i] == '\\' && i + 1 < |css| ==> StateAt(css, i + 2) == StateAt(css, i)
  {
    RowNext(css, i);
    if i + 1 < |css| { RowNext(css, i + 1); }
  }

  // ---------- stripComments ----------

  // The first comment end from `j` on, or -1.
  function IndexOfClose(css: string, j: nat): (e: int)
    ensures e == -1 || (j <= e && e + 2 <= |css| && css[e] == '*' && css[e + 1] == '/')
    decreases |css| - j
  {
    if j + 2 > |css| then -1
    else if css[j] == '*' && css[j + 1] == '/' then j
    else IndexOfClose(css, j + 1)
  }

  /** Just after the comment whose text starts at `j`; beyond the text if it is unclosed. */
  function CommentEnd(css: string, j: nat): nat {
    var e := IndexOfClose(css, j);
    if e == -1 then |css| + 1 else e + 2
  }

  lemma {:induction false} CommentPass(css: string, j: nat)
    requires j <= |css| && StateAt(css, j).mode.Comment?
    requires StateAt(css, j).mode.star && j < |css| ==> css[j] != '/'
    ensures var e := CommentEnd(css, j);
      && OutAt(css, e) == OutAt(css, j)
      && if e > |css| then StateAt(css, e).mode.Comment? else StateAt(css, e).mode == Plain(0)
    decreases |css| - j
  {
    if j >= |css| {
    } else {
      RowNext(css, j);
      AppendEmpty(OutAt(css, j));
      if IndexOfClose(css, j) == j {
        RowNext(css, j + 1);
        assert OutAt(css, j + 1) == OutAt(css, j);
      } else {
        CommentPass(css, j + 1);
      }
    }
  }

  /** At a comment one space is written, then nothing up to its end. */
  lemma {:induction false} WalkComment(css: string, i: nat)
    requires i + 1 < |css| && At(css, i, None) && css[i] == '/' && css[i + 1] == '*'
    ensures var e := CommentEnd(css, i + 2);
      At(css, e, None) && WrittenAt(css, e) == WrittenAt(css, i) + " "
  {
    var m := StateAt(css, i).mode;
    assert !m.UrlHead? by { assert !IsSpace('/') && !IsQuote('/'); }
    RowNext(css, i);
    RowNext(css, i + 1);
    assert Emit(m, '/') == Flush(m);
    assert OutAt(css, i + 1) == WrittenAt(css, i);
    assert OutAt(css, i + 2) == WrittenAt(css, i) + " ";
    CommentPass(css, i + 2);
    AppendEmpty(WrittenAt(css, i) + " ");
  }

  method StripComments(css: string) returns (out: string)
    ensures out == Strip(css)
  {
    out := "";
    var quote: Option<Quote> := None;
    var i := 0;
    while i < |css|
      invariant At(css, i, quote) && out == WrittenAt(css, i)
      decreases |css| - i
    {
      var c := css[i];
      if quote.Some? {
        WalkQuoted(css, i, quote.value);
        WritesOne(css, i);
        if c == '\\' {
          if i + 1 < |css| {
            WritesOne(css, i + 1);
            out := out + [c] + [css[i + 1]];
          } else {
            out := out + [c];
          }
          i := i + 2;
        } else {
          if c == quote.value { quote := None; }
          out := out + [c];
          i := i + 1;
        }
      } else if IsQuote(c) {
        WalkQuote(css, i);
        WritesOne(css, i);
        quote := Some(c);
        out := out + [c];
        i := i + 1;
      } else if c == '/' && i + 1 < |css| && css[i + 1] == '*' {
        WalkComment(css, i);
        var end := IndexOfClose(css, i + 2);
        i := if end == -1 then |css| + 1 else end + 2;
        out := out + " ";
      } else {
        var end := ScanUnquotedUrl(css, i);
        if end == -1 {
          WalkStep(css, i);
          WritesOne(css, i);
          out := out + [c];
          i := i + 1;
        } else {
          WalkUrl(css, i);
          out := out + css[i..end];
          i := end;
        }
      }
    }
    WrittenAtEnd(css, i);
  }

  // ---------- importantify ----------

  /** What the splitting loop keeps: its open quote, its pieces and its depth are
      those of the automaton.  Past the `(` of a `url(` that holds a quote, the
      loop has counted a parenthesis that the automaton counts at the quote. */
  predicate Scanning(css: string, i: nat, quote: Option<Quote>, depth: nat, cuts: Cuts) {
    && At(css, i, quote)
    && cuts == CutsAt(css, i)
    && (i < |css| ==> depth == StateAt(css, i).depth + if StateAt(css, i).mode.UrlHead? then 1 else 0)
  }

  lemma {:induction false} ScanQuoted(css: string, i: nat, q: Quote, depth: nat, cuts: Cuts)
    requires i < |css| && Scanning(css, i, Some(q), depth, cuts) && css[i] != '\\'
    ensures Scanning(css, i + 1, if css[i] == q then None else Some(q), depth, cuts)
  {
    WalkQuoted(css, i, q);
    RowNext(css, i);
  }

  lemma {:induction false} ScanEscape(css: string, i: nat, q: Quote, depth: nat, cuts: Cuts)
    requires i < |css| && Scanning(css, i, Some(q), depth, cuts) && css[i] == '\\'
    ensures Scanning(css, i + 2, Some(q), depth, cuts)
  {
    WalkQuoted(css, i, q);
    RowNext(css, i);
    if i + 1 < |css| { RowNext(css, i + 1); }
  }

  lemma {:induction false} ScanQuote(css: string, i: nat, depth: nat, cuts: Cuts)
    requires i < |css| && Scanning(css, i, None, depth, cuts) && IsQuote(css[i])
    ensures Scanning(css, i + 1, Some(css[i]), depth, cuts)
  {
    WalkQuote(css, i);
    RowNext(css, i);
  }

  lemma {:induction false} ScanUrl(css: string, i: nat, depth: nat, cuts: Cuts)
    requires i < |css| && Scanning(css, i, None, depth, cuts) && UrlEnd(css, i) != -1
    ensures Scanning(css, UrlEnd(css, i), None, depth, cuts)
  {
    WalkUrl(css, i);
  }

  lemma {:induction false} CommentUnclean(css: string, j: nat)
    requires j <= |css| && StateAt(css, j).mode.Comment?
    ensures !Clean(START, css)
  {
    StateAtRuns(css, j);
    assert css[..j] + css[j..] == css;
    CleanAppend(START, css[..j], css[j..]);
    if Clean(START, css) { CleanEnd(START, css[..j]); }
  }

  /** In a text without comments no slash opens one. */
  lemma {:induction false} NoComment(css: string, i: nat)
    requires Clean(START, css) && i + 1 < |css| && css[i] == '/' && At(css, i, None)
    ensures css[i + 1] != '*'
  {
    assert !StateAt(css, i).mode.UrlHead? by { assert !IsSpace('/') && !IsQuote('/'); }
    RowNext(css, i);
    RowNext(css, i + 1);
    if css[i + 1] == '*' { CommentUnclean(css, i + 2); }
  }

  /** A separator at depth zero cuts. */
  lemma {:induction false} ScanCut(css: string, i: nat, cuts: Cuts)
    requires i < |css| && Scanning(css, i, None, 0, cuts) && css[i] == ';'
    ensures Scanning(css, i + 1, None, 0, Cuts(cuts.decls + [css[cuts.start..i]], i + 1))
  {
    WalkStep(css, i);
    RowNext(css, i);
  }

  /** What a character does to the loop's parenthesis count. */
  function Depth(depth: nat, c: char): nat {
    if c == '(' then depth + 1 else if c == ')' && depth > 0 then depth - 1 else depth
  }

  lemma {:induction false} ScanOther(css: string, i: nat, depth: nat, cuts: Cuts)
    requires Clean(START, css) && i < |css| && !IsQuote(css[i]) && UrlEnd(css, i) == -1
    requires Scanning(css, i, None, depth, cuts) && !(css[i] == ';' && depth == 0)
    ensures Scanning(css, i + 1, None, Depth(depth, css[i]), cuts)
  {
    if css[i] == '/' && i + 1 < |css| { NoComment(css, i); }
    WalkStep(css, i);
    RowNext(css, i);
  }

  /** The loop over the text without comments. */
  method CutDeclarations(css: string) returns (decls: seq<string>)
    requires Clean(START, css)
    ensures decls == Split(css)
  {
    decls := [];
    var start, i := 0, 0;
    var depth: nat := 0;
    var quote: Option<Quote> := None;
    while i < |css|
      invariant start <= |css| && Scanning(css, i, quote, depth, Cuts(decls, start))
      decreases |css| - i
    {
      ghost var cuts := Cuts(decls, start);
      var c := css[i];
      if quote.Some? {
        if c == '\\' {
          ScanEscape(css, i, quote.value, depth, cuts);
          i := i + 1;
        } else {
          ScanQuoted(css, i, quote.value, depth, cuts);
          if c == quote.value { quote := None; }
        }
      } else if IsQuote(c) {
        ScanQuote(css, i, depth, cuts);
        quote := Some(c);
      } else if c == '(' {
        ScanOther(css, i, depth, cuts);
        assert Depth(depth, c) == depth + 1;
        depth := depth + 1;
      } else if c == ')' {
        ScanOther(css, i, depth, cuts);
        assert Depth(depth, c) == if depth == 0 then 0 else depth - 1;
        depth := if depth == 0 then 0 else depth - 1;
      } else if c == ';' && depth == 0 {
        ScanCut(css, i, cuts);
        decls := decls + [css[start..i]];
        start := i + 1;
      } else {
        var end := ScanUnquotedUrl(css, i);
        if end == -1 {
          ScanOther(css, i, depth, cuts);
        } else {
          ScanUrl(css, i, depth, cuts);
          i := end - 1;
        }
      }
      i := i + 1;
    }
    decls := decls + [css[start..]];
    CutsAtEnd(css, i);
  }

  /** Every declaration that is read is written, in order, marked unless it was. */
  method MarkImportant(css: string) returns (out: string)
    ensures out == Importantify(css)
    ensures exists at :: WrittenAsRead(Split(Strip(css)), Declarations(css), at)
    ensures out == Join(Declarations(css), ";")
  {
    var stripped := StripComments(css);
    StripClean(css);
    var decls := CutDeclarations(stripped);
    ghost var at := FinishWrites(decls);
    out := Join(Finish(decls), ";");
  }
}
