/** A reference lexer for the CSS text of a pseudo-class rule: one character at
    a time, no lookahead.  `Strip` and `Split` are what the scanning passes of
    CssScanners compute; the automaton composes over concatenation. */
module CssAutomaton {
  import opened JsText

  predicate IsQuote(c: char) { c == '\'' || c == '"' }

  type Quote = c: char | IsQuote(c) witness '"'

  /** Where in the text the reader stands.  `Plain(k)` counts how much of a
      possible `url(` it has seen: 0 after a character that no identifier
      contains, 1 to 3 after `u`, `ur`, `url`, 4 inside any other identifier.
      `UrlHead` is after `url(` and white space: a quote there makes it an
      ordinary function call, anything else an unquoted url. */
  datatype Mode =
    | Plain(k: nat)
    | Slash
    | Comment(star: bool)
    | Quoted(q: Quote, esc: bool)
    | UrlHead
    | UrlBody(esc: bool)

  datatype State = State(mode: Mode, depth: nat)

  const START := State(Plain(0), 0)

  predicate IsWord(c: char) {
    'a' <= c <= 'z' || 'A' <= c <= 'Z' || '0' <= c <= '9' || c == '_' || c == '-'
  }

  /** How much of `url` ends here, given how much ended one character earlier. */
  function NextTail(k: nat, c: char): (n: nat)
    ensures n <= 4 && (n == 0 <==> !IsWord(c))
  {
    if k == 0 && (c == 'u' || c == 'U') then 1
    else if k == 1 && (c == 'r' || c == 'R') then 2
    else if k == 2 && (c == 'l' || c == 'L') then 3
    else if IsWord(c) then 4
    else 0
  }

  function NextPlain(k: nat, depth: nat, c: char): State {
    if IsQuote(c) then State(Quoted(c, false), depth)
    else if c == '/' then State(Slash, depth)
    else if c == '(' then if k == 3 then State(UrlHead, depth) else State(Plain(0), depth + 1)
    else if c == ')' then State(Plain(0), if depth == 0 then 0 else depth - 1)
    else State(Plain(NextTail(k, c)), depth)
  }

  function Next(st: State, c: char): State {
    match st.mode
    case Plain(k) => NextPlain(k, st.depth, c)
    case Slash => if c == '*' then State(Comment(false), st.depth) else NextPlain(0, st.depth, c)
    case Comment(star) => State(if star && c == '/' then Plain(0) else Comment(c == '*'), st.depth)
    case Quoted(q, esc) =>
      State(if esc then Quoted(q, false) else if c == '\\' then Quoted(q, true)
            else if c == q then Plain(0) else Quoted(q, false), st.depth)
    case UrlHead =>
      if IsSpace(c) then st
      else if IsQuote(c) then State(Quoted(c, false), st.depth + 1)
      else State(if c == ')' then Plain(0) else UrlBody(c == '\\'), st.depth)
    case UrlBody(esc) =>
      State(if esc then UrlBody(false) else if c == ')' then Plain(0) else UrlBody(c == '\\'), st.depth)
  }

  function Run(st: State, s: string): State
    decreases |s|
  {
    if s == "" then st else Run(Next(st, s[0]), s[1..])
  }

  /** What leaves the comment stripper on one character.  A slash is held back
      until the next character says whether it opens a comment. */
  function Emit(mode: Mode, c: char): string {
    match mode
    case Plain(_) => if c == '/' then "" else [c]
    case Slash => if c == '*' then " " else if c == '/' then "/" else ['/', c]
    case Comment(_) => ""
    case _ => [c]
  }

  function Out(st: State, s: string): string
    decreases |s|
  {
    if s == "" then "" else Emit(st.mode, s[0]) + Out(Next(st, s[0]), s[1..])
  }

  function Flush(mode: Mode): string { if mode == Slash then "/" else "" }

  /** The text with every comment outside quotes and unquoted urls replaced by
      one space, and all other text kept in order. */
  function Strip(s: string): string { Out(START, s) + Flush(Run(START, s).mode) }

  /** A semicolon read here separates two declarations. */
  predicate AtTop(st: State) { (st.mode.Plain? || st.mode.Slash?) && st.depth == 0 }

  /** The pieces between separating semicolons; `cur` is the piece being read. */
  function SplitFrom(st: State, cur: string, s: string): (parts: seq<string>)
    ensures parts != []
    decreases |s|
  {
    if s == "" then [cur]
    else if s[0] == ';' && AtTop(st) then [cur] + SplitFrom(START, "", s[1..])
    else SplitFrom(Next(st, s[0]), cur + [s[0]], s[1..])
  }

  function Split(s: string): seq<string> { SplitFrom(START, "", s) }

  // ---------- composition ----------

  lemma {:induction false} RunAppend(st: State, a: string, b: string)
    ensures Run(st, a + b) == Run(Run(st, a), b)
    decreases |a|
  {
    if a == "" {
      assert a + b == b;
    } else {
      assert (a + b)[1..] == a[1..] + b;
      RunAppend(Next(st, a[0]), a[1..], b);
    }
  }

  lemma {:induction false} OutAppend(st: State, a: string, b: string)
    ensures Out(st, a + b) == Out(st, a) + Out(Run(st, a), b)
    decreases |a|
  {
    if a == "" {
      assert a + b == b;
    } else {
      assert (a + b)[1..] == a[1..] + b;
      OutAppend(Next(st, a[0]), a[1..], b);
    }
  }

  // ---------- comment stripping ----------

  /** Reading `s` from `st` never opens a comment. */
  predicate Clean(st: State, s: string)
    decreases |s|
  {
    !st.mode.Comment? && (s == "" || Clean(Next(st, s[0]), s[1..]))
  }

  lemma {:induction false} CleanAppend(st: State, a: string, b: string)
    ensures Clean(st, a + b) <==> Clean(st, a) && Clean(Run(st, a), b)
    decreases |a|
  {
    if a == "" {
      assert a + b == b;
    } else {
      assert (a + b)[1..] == a[1..] + b;
      CleanAppend(Next(st, a[0]), a[1..], b);
    }
  }

  /** On a text without comments the stripper copies. */
  lemma {:induction false} CleanCopies(st: State, s: string)
    requires Clean(st, s)
    ensures Out(st, s) + Flush(Run(st, s).mode) == Flush(st.mode) + s
    decreases |s|
  {
    if s == "" {
    } else {
      assert s == [s[0]] + s[1..];
      var e, st1, t := Emit(st.mode, s[0]), Next(st, s[0]), s[1..];
      CleanCopies(st1, t);
      assert e + Flush(st1.mode) == Flush(st.mode) + [s[0]];
      Assoc(e, Out(st1, t), Flush(Run(st1, t).mode));
      Assoc(e, Flush(st1.mode), t);
      Assoc(Flush(st.mode), [s[0]], t);
    }
  }

  /** A second reader on the stripped text: same state, except that a comment is
      a space to it and a held-back slash has not reached it yet. */
  predicate Follows(st: State, st': State) {
    st'.depth == st.depth &&
    match st.mode
    case Comment(_) => st'.mode == Plain(0)
    case Slash => st'.mode.Plain? || st'.mode.Slash?
    case _ => st'.mode == st.mode
  }

  /** The state a reader of the stripped text ends in. */
  function Settle(st: State): State {
    if st.mode.Comment? then State(Plain(0), st.depth) else st
  }

  lemma FollowsStep(st: State, st': State, c: char)
    requires Follows(st, st')
    ensures Clean(st', Emit(st.mode, c))
    ensures Follows(Next(st, c), Run(st', Emit(st.mode, c)))
  {
    var e := Emit(st.mode, c);
    if |e| == 2 {
      var slash := State(Slash, st.depth);
      assert Next(st', '/') == slash;
      assert e[1..] == [c] && Run(slash, [c]) == Next(slash, c);
    } else if |e| == 1 {
      assert Run(st', e) == Next(st', e[0]);
    }
  }

  lemma {:induction false} FollowsRun(st: State, st': State, s: string)
    requires Follows(st, st')
    ensures var t := Out(st, s) + Flush(Run(st, s).mode);
      Clean(st', t) && Run(st', t) == Settle(Run(st, s))
    decreases |s|
  {
    if s == "" {
      var t := Out(st, s) + Flush(Run(st, s).mode);
      assert t == Flush(st.mode);
    } else {
      var e, st1 := Emit(st.mode, s[0]), Next(st, s[0]);
      var t1 := Out(st1, s[1..]) + Flush(Run(st1, s[1..]).mode);
      FollowsStep(st, st', s[0]);
      FollowsRun(st1, Run(st', e), s[1..]);
      RunAppend(st', e, t1);
      CleanAppend(st', e, t1);
      assert Out(st, s) + Flush(Run(st, s).mode) == e + t1;
    }
  }

  /** The stripped text holds no comment, and a reader of it ends where a reader
      of the original does. */
  lemma StripClean(s: string)
    ensures Clean(START, Strip(s))
    ensures Run(START, Strip(s)) == Settle(Run(START, s))
  {
    FollowsRun(START, START, s);
  }

  lemma CleanFixed(s: string)
    requires Clean(START, s)
    ensures Strip(s) == s
  {
    CleanCopies(START, s);
  }

  /** Stripping twice is stripping once. */
  lemma StripIdempotent(s: string)
    ensures Strip(Strip(s)) == Strip(s)
  {
    StripClean(s);
    CleanFixed(Strip(s));
  }

  lemma {:induction false} OutShorter(st: State, s: string)
    ensures |Out(st, s)| + |Flush(Run(st, s).mode)| <= |s| + |Flush(st.mode)|
    decreases |s|
  {
    if s == "" {
    } else {
      OutShorter(Next(st, s[0]), s[1..]);
    }
  }

  lemma StripNeverGrows(s: string)
    ensures |Strip(s)| <= |s|
  {
    OutShorter(START, s);
  }

  /** A text is a fixed point of stripping exactly when it holds no comment
      outside quotes and unquoted urls. */
  lemma StripFixedIffClean(s: string)
    ensures Strip(s) == s <==> Clean(START, s)
  {
    if Clean(START, s) { CleanFixed(s); }
    StripClean(s);
  }

  // ---------- splitting ----------

  /** Reading `s` from `st` passes no separating semicolon. */
  predicate Whole(st: State, s: string)
    decreases |s|
  {
    s == "" || (!(s[0] == ';' && AtTop(st)) && Whole(Next(st, s[0]), s[1..]))
  }

  lemma {:induction false} WholeAppend(st: State, a: string, b: string)
    ensures Whole(st, a + b) <==> Whole(st, a) && Whole(Run(st, a), b)
    decreases |a|
  {
    if a == "" {
      assert a + b == b;
    } else {
      assert (a + b)[1..] == a[1..] + b;
      WholeAppend(Next(st, a[0]), a[1..], b);
    }
  }

  lemma {:induction false} SplitWhole(st: State, cur: string, s: string)
    requires Whole(st, s)
    ensures SplitFrom(st, cur, s) == [cur + s]
    decreases |s|
  {
    if s == "" {
      assert cur + s == cur;
    } else {
      SplitWhole(Next(st, s[0]), cur + [s[0]], s[1..]);
      assert cur + [s[0]] + s[1..] == cur + s;
    }
  }

  /** Pieces that a separating semicolon ends, then whatever follows it. */
  lemma {:induction false} SplitAt(st: State, cur: string, a: string, b: string)
    requires AtTop(Run(st, a))
    ensures SplitFrom(st, cur, a + ";" + b) == SplitFrom(st, cur, a) + Split(b)
    decreases |a|
  {
    var s := a + ";" + b;
    if a == "" {
      assert s == ";" + b && s[1..] == b;
      assert SplitFrom(st, cur, s) == [cur] + Split(b);
    } else {
      assert s[1..] == a[1..] + ";" + b;
      if a[0] == ';' && AtTop(st) {
        SplitAt(START, "", a[1..], b);
        assert SplitFrom(st, cur, s) == [cur] + (SplitFrom(START, "", a[1..]) + Split(b));
      } else {
        SplitAt(Next(st, a[0]), cur + [a[0]], a[1..], b);
      }
    }
  }

  /** A list of pieces that splitting its `;`-join gives back. */
  predicate Separable(parts: seq<string>) {
    parts != [] && Whole(START, parts[0]) && Clean(START, parts[0]) &&
    (|parts| > 1 ==> AtTop(Run(START, parts[0])) && Separable(parts[1..]))
  }

  /** What a piece looks like once the reader is `cur` characters into it. */
  lemma {:induction false} SplitSeparable(st: State, cur: string, s: string)
    requires Clean(START, cur) && Whole(START, cur) && st == Run(START, cur) && Clean(st, s)
    ensures Separable(SplitFrom(st, cur, s))
    decreases |s|
  {
    if s == "" {
    } else if s[0] == ';' && AtTop(st) {
      SplitSeparable(START, "", s[1..]);
    } else {
      RunAppend(START, cur, [s[0]]);
      CleanAppend(START, cur, [s[0]]);
      WholeAppend(START, cur, [s[0]]);
      assert Run(st, [s[0]]) == Next(st, s[0]);
      SplitSeparable(Next(st, s[0]), cur + [s[0]], s[1..]);
    }
  }

  /** Joining separable pieces and splitting the result gives the pieces back,
      and the join has no comment in it. */
  lemma {:induction false} SplitOfJoin(parts: seq<string>)
    requires Separable(parts)
    ensures Split(Join(parts, ";")) == parts && Clean(START, Join(parts, ";"))
  {
    if |parts| == 1 {
      SplitWhole(START, "", parts[0]);
      assert "" + parts[0] == parts[0];
    } else {
      var rest := Join(parts[1..], ";");
      SplitOfJoin(parts[1..]);
      SplitWhole(START, "", parts[0]);
      assert "" + parts[0] == parts[0];
      SplitAt(START, "", parts[0], rest);
      RunAppend(START, parts[0], ";");
      CleanAppend(START, parts[0], ";");
      CleanAppend(START, parts[0] + ";", rest);
      assert Run(START, parts[0] + ";") == START;
      assert parts == [parts[0]] + parts[1..];
    }
  }

  /** The converse: splitting loses nothing but the separators. */
  lemma {:induction false} JoinOfSplit(st: State, cur: string, s: string)
    ensures Join(SplitFrom(st, cur, s), ";") == cur + s
    decreases |s|
  {
    if s == "" {
      assert cur + s == cur;
    } else if s[0] == ';' && AtTop(st) {
      JoinOfSplit(START, "", s[1..]);
      var rest := SplitFrom(START, "", s[1..]);
      assert ([cur] + rest)[1..] == rest;
      assert cur + ";" + s[1..] == cur + s;
      assert "" + s[1..] == s[1..];
    } else {
      JoinOfSplit(Next(st, s[0]), cur + [s[0]], s[1..]);
      assert cur + [s[0]] + s[1..] == cur + s;
    }
  }
}
