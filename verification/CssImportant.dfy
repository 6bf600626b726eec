/** `importantify` as a function of the text, and the laws it obeys on every
    text: unclosed quotes, parentheses, comments and urls included. */
module CssImportant {
  import opened JsText
  import opened CssAutomaton

  const IMPORTANT := " !important"

  /** The test `/!\s*important$/i` on a declaration. */
  predicate EndsImportant(d: string) {
    && |d| >= 9
    && LowerEquals(d[|d| - 9..], "important")
    && var head := TrimRight(d[..|d| - 9]);
       head != "" && head[|head| - 1] == '!'
  }

  /** Case-insensitive comparison with a lower-case ASCII letter. */
  predicate IsLetter(c: char, lower: char)
    requires 'a' <= lower <= 'z'
  {
    c == lower || c as int + 32 == lower as int
  }

  predicate LowerEquals(s: string, lower: string)
    requires forall i :: 0 <= i < |lower| ==> 'a' <= lower[i] <= 'z'
  {
    |s| == |lower| && forall i :: 0 <= i < |s| ==> IsLetter(s[i], lower[i])
  }

  function Mark(d: string): string {
    if EndsImportant(d) then d else d + IMPORTANT
  }

  /** Trim every piece, drop the empty ones, mark the rest. */
  function Finish(parts: seq<string>): seq<string> {
    if parts == [] then []
    else
      var d := Trim(parts[0]);
      (if d == "" then [] else [Mark(d)]) + Finish(parts[1..])
  }

  /** The declarations of the rule that `Importantify` writes. */
  function Declarations(css: string): seq<string> { Finish(Split(Strip(css))) }

  function Importantify(css: string): string { Join(Declarations(css), ";") }

  // ---------- marked declarations ----------

  predicate Marked(d: string) {
    d != "" && Trimmed(d) && EndsImportant(d)
  }

  lemma MarkMarks(d: string)
    requires d != "" && Trimmed(d)
    ensures Marked(Mark(d))
  {
    if !EndsImportant(d) {
      var m := d + IMPORTANT;
      assert m[|m| - 9..] == "important";
      assert m[..|m| - 9] == d + " !";
      var h := d + " !";
      assert h[|h| - 1] == '!';
      assert m[|m| - 1] == 't' && m[0] == d[0];
    }
  }

  lemma {:induction false} FinishMarks(parts: seq<string>)
    ensures forall i :: 0 <= i < |Finish(parts)| ==> Marked(Finish(parts)[i])
  {
    if parts == [] {
    } else {
      var d := Trim(parts[0]);
      var _, _ := TrimSplits(parts[0]);
      if d != "" { MarkMarks(d); }
      FinishMarks(parts[1..]);
    }
  }

  lemma {:induction false} FinishMarked(ds: seq<string>)
    requires forall i :: 0 <= i < |ds| ==> Marked(ds[i])
    ensures Finish(ds) == ds
  {
    if ds == [] {
    } else {
      TrimOfTrimmed(ds[0]);
      FinishMarked(ds[1..]);
      assert ds == [ds[0]] + ds[1..];
    }
  }

  lemma {:induction false} FinishAppend(a: seq<string>, b: seq<string>)
    ensures Finish(a + b) == Finish(a) + Finish(b)
  {
    if a == [] {
      assert a + b == b;
    } else {
      assert (a + b)[1..] == a[1..] + b;
      FinishAppend(a[1..], b);
    }
  }

  // ---------- reading trimmed and marked pieces ----------

  lemma {:induction false} RunSpaces(l: string)
    requires AllSpace(l)
    ensures Run(START, l) == START
  {
    if l == "" {
    } else {
      assert Next(START, l[0]) == START;
      RunSpaces(l[1..]);
    }
  }

  /** White space never closes what is open. */
  lemma {:induction false} SpacesKeepOpen(st: State, r: string)
    requires AllSpace(r) && !st.mode.Comment? && AtTop(Run(st, r))
    ensures AtTop(st)
    decreases |r|
  {
    if r == "" {
    } else {
      SpacesKeepOpen(Next(st, r[0]), r[1..]);
    }
  }

  /** Text without any of the lexer's special characters. */
  predicate Bland(t: string) {
    forall i :: 0 <= i < |t| ==> t[i] !in {'\'', '"', '/', '*', '(', ')', ';'}
  }

  lemma {:induction false} BlandRun(st: State, t: string)
    requires Bland(t) && !st.mode.Comment?
    ensures Clean(st, t) && Whole(st, t) && (AtTop(st) ==> AtTop(Run(st, t)))
    decreases |t|
  {
    if t == "" {
    } else {
      BlandRun(Next(st, t[0]), t[1..]);
    }
  }

  lemma {:induction false} CleanEnd(st: State, s: string)
    requires Clean(st, s)
    ensures !Run(st, s).mode.Comment?
    decreases |s|
  {
    if s == "" {
    } else {
      CleanEnd(Next(st, s[0]), s[1..]);
    }
  }

  /** Cutting white space off both ends of a piece keeps it one piece, and closed if it was. */
  lemma TrimOne(l: string, d: string, r: string)
    requires AllSpace(l) && AllSpace(r)
    requires Whole(START, l + d + r) && Clean(START, l + d + r)
    ensures Whole(START, d) && Clean(START, d)
    ensures AtTop(Run(START, l + d + r)) ==> AtTop(Run(START, d))
  {
    RunSpaces(l);
    WholeAppend(START, l + d, r); WholeAppend(START, l, d);
    CleanAppend(START, l + d, r); CleanAppend(START, l, d);
    RunAppend(START, l + d, r); RunAppend(START, l, d);
    CleanEnd(START, d);
    if AtTop(Run(START, l + d + r)) { SpacesKeepOpen(Run(START, d), r); }
  }

  /** So does marking it. */
  lemma MarkOne(d: string)
    requires Whole(START, d) && Clean(START, d)
    ensures Whole(START, Mark(d)) && Clean(START, Mark(d))
    ensures AtTop(Run(START, d)) ==> AtTop(Run(START, Mark(d)))
  {
    CleanEnd(START, d);
    BlandRun(Run(START, d), IMPORTANT);
    WholeAppend(START, d, IMPORTANT);
    CleanAppend(START, d, IMPORTANT);
    RunAppend(START, d, IMPORTANT);
  }

  lemma FinishOne(p: string)
    requires Whole(START, p) && Clean(START, p)
    ensures var m := Mark(Trim(p));
      Whole(START, m) && Clean(START, m) && (AtTop(Run(START, p)) ==> AtTop(Run(START, m)))
  {
    var l, r := TrimSplits(p);
    TrimOne(l, Trim(p), r);
    MarkOne(Trim(p));
  }

  lemma SeparableCons(m: string, rest: seq<string>)
    requires Whole(START, m) && Clean(START, m)
    requires rest != [] ==> AtTop(Run(START, m)) && Separable(rest)
    ensures Separable([m] + rest)
  {
    assert ([m] + rest)[1..] == rest;
  }

  lemma {:induction false} FinishSeparable(parts: seq<string>)
    requires Separable(parts)
    ensures Finish(parts) == [] || Separable(Finish(parts))
  {
    FinishOne(parts[0]);
    var m, rest := Mark(Trim(parts[0])), Finish(parts[1..]);
    if |parts| > 1 {
      FinishSeparable(parts[1..]);
    } else {
      assert parts[1..] == [];
    }
    SeparableCons(m, rest);
    if Trim(parts[0]) == "" {
      assert Finish(parts) == rest;
    } else {
      assert Finish(parts) == [m] + rest;
    }
  }

  // ---------- the laws ----------

  /** Reading back what was written gives the declarations that were written. */
  lemma ImportantifyReadsBack(css: string)
    ensures Declarations(Importantify(css)) == Declarations(css)
  {
    var parts, ds := Split(Strip(css)), Declarations(css);
    StripClean(css);
    SplitSeparable(START, "", Strip(css));
    FinishSeparable(parts);
    FinishMarks(parts);
    if ds != [] {
      SplitOfJoin(ds);
      CleanFixed(Importantify(css));
      FinishMarked(ds);
    } else {
      assert Split(Strip("")) == [""];
    }
  }

  /** Marking a rule twice is marking it once. */
  lemma ImportantifyIdempotent(css: string)
    ensures Importantify(Importantify(css)) == Importantify(css)
  {
    ImportantifyReadsBack(css);
  }

  /** The second pass cuts at the same places, and every piece is already
      trimmed, non-empty and marked.  The one exception to the cutting is a rule
      without declarations, written as the empty text. */
  lemma ImportantifyPieces(css: string)
    ensures var out := Importantify(css);
      && Strip(out) == out
      && (Declarations(css) == [] ==> out == "")
      && (Declarations(css) != [] ==> Split(out) == Declarations(css))
      && (forall i :: 0 <= i < |Declarations(css)| ==> Marked(Declarations(css)[i]))
  {
    var parts, ds := Split(Strip(css)), Declarations(css);
    StripClean(css);
    SplitSeparable(START, "", Strip(css));
    FinishSeparable(parts);
    FinishMarks(parts);
    if ds != [] {
      SplitOfJoin(ds);
      CleanFixed(Importantify(css));
    }
  }

  /** Two rule texts side by side, an empty one leaving no separator behind. */
  function JoinNonEmpty(x: string, y: string): string {
    if x == "" then y else if y == "" then x else x + ";" + y
  }

  /** No quote, parenthesis, comment or url is open at the end of the text. */
  predicate Neutral(css: string) { AtTop(Run(START, css)) }

  lemma JoinParts(a: seq<string>, b: seq<string>)
    requires forall i :: 0 <= i < |a| ==> Marked(a[i])
    requires forall i :: 0 <= i < |b| ==> Marked(b[i])
    ensures Join(a + b, ";") == JoinNonEmpty(Join(a, ";"), Join(b, ";"))
  {
    if a == [] {
      assert a + b == b;
    } else if b == [] {
      assert a + b == a;
    } else {
      JoinAppend(a, b, ";");
    }
  }

  lemma StripSemicolon(a: string)
    requires Neutral(a)
    ensures Out(START, a + ";") == Strip(a) + ";" && Run(START, a + ";") == START
  {
    var st := Run(START, a);
    OutAppend(START, a, ";");
    RunAppend(START, a, ";");
    RunOne(st, ';');
    Assoc(Out(START, a), Flush(st.mode), ";");
  }

  lemma StripAtTop(a: string, b: string)
    requires Neutral(a)
    ensures Strip(a + ";" + b) == Strip(a) + ";" + Strip(b)
  {
    StripSemicolon(a);
    var a' := a + ";";
    OutAppend(START, a', b);
    RunAppend(START, a', b);
    Assoc(Strip(a) + ";", Out(START, b), Flush(Run(START, b).mode));
  }

  /** Reading one character. */
  lemma RunOne(st: State, c: char)
    ensures Run(st, [c]) == Next(st, c) && Out(st, [c]) == Emit(st.mode, c)
  {
    assert [c][1..] == "";
    assert Emit(st.mode, c) + "" == Emit(st.mode, c);
  }

  /** One rule text followed by another: the declarations of both, in order. */
  lemma ImportantifyAppend(a: string, b: string)
    requires Neutral(a)
    ensures Declarations(a + ";" + b) == Declarations(a) + Declarations(b)
    ensures Importantify(a + ";" + b) == JoinNonEmpty(Importantify(a), Importantify(b))
  {
    StripAtTop(a, b);
    StripClean(a);
    SplitAt(START, "", Strip(a), Strip(b));
    FinishAppend(Split(Strip(a)), Split(Strip(b)));
    FinishMarks(Split(Strip(a)));
    FinishMarks(Split(Strip(b)));
    var da, db := Declarations(a), Declarations(b);
    assert Declarations(a + ";" + b) == da + db;
    JoinParts(da, db);
  }

  /** A semicolon read inside something open stays in the last piece. */
  lemma {:induction false} SplitInside(st: State, cur: string, s: string)
    requires !AtTop(Run(st, s))
    ensures var p := SplitFrom(st, cur, s);
      SplitFrom(st, cur, s + ";") == p[..|p| - 1] + [p[|p| - 1] + ";"]
    decreases |s|
  {
    if s == "" {
      assert s + ";" == ";" && ";"[1..] == "";
    } else {
      assert (s + ";")[1..] == s[1..] + ";";
      if s[0] == ';' && AtTop(st) {
        SplitInside(START, "", s[1..]);
      } else {
        SplitInside(Next(st, s[0]), cur + [s[0]], s[1..]);
      }
    }
  }

  /** A semicolon at the end of a piece survives trimming. */
  lemma {:induction false} TrimSemicolon(p: string)
    ensures Trim(p + ";") == TrimLeft(p) + ";"
  {
    if p != "" && IsSpace(p[0]) {
      assert (p + ";")[1..] == p[1..] + ";";
      TrimSemicolon(p[1..]);
    } else {
      assert TrimLeft(p + ";") == p + ";";
    }
  }

  /** So it makes the declaration, and the rule, longer. */
  lemma LongerLast(p: string)
    ensures Trim(p + ";") != "" && |Mark(Trim(p + ";"))| > |Mark(Trim(p))|
  {
    TrimSemicolon(p);
    var t := Trim(p + ";");
    assert t[|t| - 1] == ';' && !IsLetter(';', "important"[8]);
    assert |t| >= 9 ==> t[|t| - 9..][8] == ';';
    assert !EndsImportant(t);
  }

  lemma {:induction false} JoinLonger(a: seq<string>, x: string, y: string)
    requires |x| > |y|
    ensures |Join(a + [x], ";")| > |Join(a + [y], ";")| && |Join(a + [x], ";")| >= |Join(a, ";")| + |x|
  {
    if a == [] {
    } else {
      assert (a + [x])[1..] == a[1..] + [x] && (a + [y])[1..] == a[1..] + [y];
      JoinLonger(a[1..], x, y);
    }
  }

  /** Inside an open quote, parenthesis or url the stripper copies a semicolon. */
  lemma StripInside(a: string)
    requires !Run(START, a).mode.Comment?
    ensures Strip(a + ";") == Strip(a) + ";"
  {
    var st := Run(START, a);
    OutAppend(START, a, ";"); RunAppend(START, a, ";");
    RunOne(st, ';');
    var x := Out(START, a);
    assert Emit(st.mode, ';') == Flush(st.mode) + ";" && Flush(Next(st, ';').mode) == "";
    assert x + (Flush(st.mode) + ";") == x + Flush(st.mode) + ";";
  }

  lemma FinishLast(front: seq<string>, last: string)
    ensures Finish(front + [last]) == Finish(front) + (if Trim(last) == "" then [] else [Mark(Trim(last))])
  {
    FinishAppend(front, [last]);
    assert [last][1..] == [];
  }

  lemma FinishLonger(front: seq<string>, last: string)
    ensures |Join(Finish(front + [last + ";"]), ";")| > |Join(Finish(front + [last]), ";")|
  {
    FinishLast(front, last);
    FinishLast(front, last + ";");
    LongerLast(last);
    var f := Finish(front);
    assert f + [] == f;
    JoinLonger(f, Mark(Trim(last + ";")), Mark(Trim(last)));
  }

  /** Inside an open quote, parenthesis or url, even an empty second rule shows. */
  lemma OpenFails(a: string)
    requires !Neutral(a) && !Run(START, a).mode.Comment?
    ensures |Importantify(a + ";")| > |Importantify(a)|
  {
    StripInside(a);
    StripClean(a);
    SplitInside(START, "", Strip(a));
    var p := Split(Strip(a));
    FinishLonger(p[..|p| - 1], p[|p| - 1]);
    FrontLast(p);
  }

  /** Inside an open comment a second rule is lost. */
  lemma {:induction false} StripLost(st: State, b: string)
    requires st.mode.Comment? && '/' !in b
    ensures Out(st, b) == "" && Run(st, b).mode.Comment?
    decreases |b|
  {
    if b == "" {
    } else {
      StripLost(Next(st, b[0]), b[1..]);
    }
  }

  lemma CommentFails(a: string, b: string)
    requires Run(START, a).mode.Comment? && '/' !in b
    ensures Strip(a + b) == Strip(a)
  {
    StripLost(Run(START, a), b);
    OutAppend(START, a, b);
    RunAppend(START, a, b);
    AppendEmpty(Out(START, a));
  }

  lemma DeclarationsBland(css: string)
    requires Bland(css) && Trimmed(css) && css != ""
    ensures Declarations(css) == [Mark(css)]
  {
    BlandRun(START, css);
    CleanFixed(css);
    SplitWhole(START, "", css);
    AppendEmpty(css);
    TrimOfTrimmed(css);
    FinishLast([], css);
    AppendEmpty([css]);
    AppendEmpty([Mark(css)]);
  }

  lemma DeclarationsEmpty()
    ensures Declarations("") == []
  {
    assert Split(Strip("")) == [""];
  }

  lemma AppendFails(a: string) returns (b: string)
    requires !Neutral(a)
    ensures Importantify(a + ";" + b) != JoinNonEmpty(Importantify(a), Importantify(b))
  {
    if Run(START, a).mode.Comment? {
      b := "y";
      RunAppend(START, a, ";");
      StripLost(Run(START, a), ";");
      CommentFails(a, ";");
      CommentFails(a + ";", b);
      DeclarationsBland(b);
    } else {
      b := "";
      OpenFails(a);
      DeclarationsEmpty();
      AppendEmpty(a + ";");
    }
  }

  /** Rules can be put side by side exactly when the first one leaves nothing open. */
  lemma ImportantifyAppendIff(a: string)
    ensures (forall b :: Importantify(a + ";" + b) == JoinNonEmpty(Importantify(a), Importantify(b)))
            <==> Neutral(a)
  {
    if Neutral(a) {
      forall b ensures Importantify(a + ";" + b) == JoinNonEmpty(Importantify(a), Importantify(b)) {
        ImportantifyAppend(a, b);
      }
    } else {
      var b := AppendFails(a);
    }
  }
}
