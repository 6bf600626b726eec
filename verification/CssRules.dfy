/** What happens to the text of a rule, said in terms of what it is written from:
    words, comments, quoted texts, urls, parentheses and semicolons.  No state of
    the automaton occurs in the grammar or in what the theorems say about it, which
    is what the two passes make of every text that the grammar has. */
module CssRules {
  import opened JsText
  import opened CssAutomaton
  import opened CssImportant

  // ---------- a grammar ----------

  /** `Stroke` is a slash that opens no comment, with the character after it;
      `UrlOf` a url that begins with a quoted text; `Closing` a parenthesis that
      closes none. */
  datatype Token =
    | Letters(text: string)
    | Stroke(next: char)
    | Remark(body: string)
    | Literal(quote: char, body: string)
    | Url(head: string, body: string)
    | UrlOf(head: string, space: string, quote: char, body: string, inside: Css)
    | Parens(inside: Css)
    | Semicolon
    | Closing

  datatype Css = Done | Then(token: Token, rest: Css)

  function TokenText(t: Token): string
    decreases t
  {
    match t
    case Letters(s) => s
    case Stroke(c) => ['/', c]
    case Remark(b) => "/*" + (b + "*/")
    case Literal(q, b) => [q] + (b + [q])
    case Url(h, b) => h + ("(" + (b + ")"))
    case UrlOf(h, sp, q, b, inside) => h + ("(" + (sp + ([q] + (b + [q]) + (TextOf(inside) + ")"))))
    case Parens(inside) => "(" + (TextOf(inside) + ")")
    case Semicolon => ";"
    case Closing => ")"
  }

  function TextOf(c: Css): string
    decreases c
  {
    match c
    case Done => ""
    case Then(t, rest) => TokenText(t) + TextOf(rest)
  }

  predicate OrdinaryChar(c: char) { c != '\'' && c != '"' && c != '/' && c != '(' && c != ')' && c != ';' }

  predicate WordChar(c: char) {
    'a' <= c <= 'z' || 'A' <= c <= 'Z' || '0' <= c <= '9' || c == '_' || c == '-'
  }

  /** In either case. */
  predicate ReadsUrl(c: char, n: nat) {
    (n == 0 && (c == 'u' || c == 'U')) || (n == 1 && (c == 'r' || c == 'R')) || (n == 2 && (c == 'l' || c == 'L'))
  }

  /** The text ends in the first `n` letters of `url`, and in nothing longer that is
      one word with them. */
  predicate EndsUrl(before: string, n: nat)
    decreases |before|
  {
    if n == 0 then before == "" || !WordChar(before[|before| - 1])
    else before != "" && ReadsUrl(before[|before| - 1], n - 1) && EndsUrl(before[..|before| - 1], n - 1)
  }

  /** No `end` in the text that no backslash stands before, and no backslash that
      escapes nothing. */
  predicate Escaped(end: char, b: string)
    decreases |b|
  {
    if b == "" then true
    else if b[0] == '\\' then |b| >= 2 && Escaped(end, b[2..])
    else b[0] != end && Escaped(end, b[1..])
  }

  /** What is no white space first is no quote. */
  predicate Unquoted(b: string)
    decreases |b|
  {
    b == "" || (if IsSpace(b[0]) then Unquoted(b[1..]) else b[0] != '\'' && b[0] != '"')
  }

  predicate UrlHeadOk(h: string, before: string) {
    |h| == 3 && ReadsUrl(h[0], 0) && ReadsUrl(h[1], 1) && ReadsUrl(h[2], 2) && EndsUrl(before, 0)
  }

  /** The token reads as what it is after the text before it. */
  predicate TokenOk(t: Token, before: string, top: bool)
    decreases t
  {
    match t
    case Letters(s) => forall i :: 0 <= i < |s| ==> OrdinaryChar(s[i])
    case Stroke(c) => OrdinaryChar(c) && c != '*'
    case Remark(b) => forall i :: 0 <= i < |b| - 1 && b[i] == '*' ==> b[i + 1] != '/'
    case Literal(q, b) => (q == '\'' || q == '"') && Escaped(q, b)
    case Url(h, b) => UrlHeadOk(h, before) && Escaped(')', b) && Unquoted(b)
    case UrlOf(h, sp, q, b, inside) =>
      && UrlHeadOk(h, before) && AllSpace(sp) && (q == '\'' || q == '"') && Escaped(q, b)
      && CssOk(inside, [q], false)
    case Parens(inside) => !EndsUrl(before, 3) && CssOk(inside, "(", false)
    case Semicolon => true
    case Closing => top
  }

  predicate CssOk(c: Css, before: string, top: bool)
    decreases c
  {
    match c
    case Done => true
    case Then(t, rest) => TokenOk(t, before, top) && CssOk(rest, before + TokenText(t), top)
  }

  // ---------- what is said about it ----------

  /** A space for every comment, all else as it is. */
  function StrippedToken(t: Token): Token
    decreases t
  {
    match t
    case Remark(_) => Letters(" ")
    case UrlOf(h, sp, q, b, inside) => UrlOf(h, sp, q, b, Stripped(inside))
    case Parens(inside) => Parens(Stripped(inside))
    case _ => t
  }

  function Stripped(c: Css): Css
    decreases c
  {
    match c
    case Done => Done
    case Then(t, rest) => Then(StrippedToken(t), Stripped(rest))
  }

  /** The texts between the semicolons that stand in nothing else. */
  function Pieces(c: Css): (p: seq<string>)
    ensures p != []
  {
    match c
    case Done => [""]
    case Then(Semicolon, rest) => [""] + Pieces(rest)
    case Then(t, rest) => [TokenText(t) + Pieces(rest)[0]] + Pieces(rest)[1..]
  }

  // ---------- the reader between tokens ----------

  /** What the reader remembers of `url` is what the text before it says. */
  predicate Fits(k: nat, before: string) {
    k <= 4 && forall n: nat :: n <= 3 ==> (EndsUrl(before, n) <==> n == k)
  }

  lemma FitsNext(k: nat, before: string, c: char)
    requires Fits(k, before)
    ensures Fits(NextTail(k, c), before + [c])
  {
    var b := before + [c];
    assert b[..|b| - 1] == before && b[|b| - 1] == c;
    assert forall n: nat :: n <= 2 ==> (EndsUrl(before, n) <==> n == k);
    assert EndsUrl(b, 1) <==> ReadsUrl(c, 0) && EndsUrl(before, 0);
    assert EndsUrl(b, 2) <==> ReadsUrl(c, 1) && EndsUrl(before, 1);
    assert EndsUrl(b, 3) <==> ReadsUrl(c, 2) && EndsUrl(before, 2);
  }

  /** After a character that no word holds nothing of `url` is remembered. */
  lemma FitsZero(before: string)
    requires before == "" || !WordChar(before[|before| - 1])
    ensures Fits(0, before)
  {
  }

  function Between(k: nat, depth: nat): State { State(Plain(k), depth) }

  lemma {:induction false} LettersRead(s: string, before: string, k: nat, depth: nat) returns (k': nat)
    requires Fits(k, before) && forall i :: 0 <= i < |s| ==> OrdinaryChar(s[i])
    ensures Run(Between(k, depth), s) == Between(k', depth) && Fits(k', before + s)
    ensures Out(Between(k, depth), s) == s && Whole(Between(k, depth), s)
    decreases |s|
  {
    if s == "" {
      k' := k;
      AppendEmpty(before);
    } else {
      FitsNext(k, before, s[0]);
      k' := LettersRead(s[1..], before + [s[0]], NextTail(k, s[0]), depth);
      assert before + [s[0]] + s[1..] == before + s;
      assert [s[0]] + s[1..] == s;
    }
  }

  // ---------- one lemma a kind of token ----------

  lemma {:induction false} StrokeRead(c: char, before: string, k: nat, depth: nat)
    requires OrdinaryChar(c) && c != '*'
    ensures var s := ['/', c]; var k' := NextTail(0, c);
      && Run(Between(k, depth), s) == Between(k', depth) && Fits(k', before + s)
      && Out(Between(k, depth), s) == s && Whole(Between(k, depth), s)
  {
    var st := State(Slash, depth);
    assert ['/', c][1..] == [c];
    RunOne(st, c);
    FitsZero(before + "/");
    FitsNext(0, before + "/", c);
    assert before + "/" + [c] == before + ['/', c];
    assert [c][1..] == "";
  }

  /** Inside a comment nothing is written, up to its end. */
  lemma {:induction false} RemarkRead(b: string, star: bool, depth: nat)
    requires forall i :: 0 <= i < |b| - 1 && b[i] == '*' ==> b[i + 1] != '/'
    requires star && b != "" ==> b[0] != '/'
    ensures var st := State(Comment(star), depth);
      && Run(st, b + "*/") == Between(0, depth) && Out(st, b + "*/") == "" && Whole(st, b + "*/")
      && Run(st, b).mode.Comment? && Out(st, b) == ""
    decreases |b|
  {
    var st := State(Comment(star), depth);
    if b == "" {
      assert b + "*/" == "*/" && "*/"[1..] == "/" && "/"[1..] == "";
    } else {
      assert (b + "*/")[1..] == b[1..] + "*/";
      RemarkRead(b[1..], b[0] == '*', depth);
    }
  }

  lemma {:induction false} CommentRead(b: string, before: string, k: nat, depth: nat)
    requires forall i :: 0 <= i < |b| - 1 && b[i] == '*' ==> b[i + 1] != '/'
    ensures var s := "/*" + (b + "*/");
      && Run(Between(k, depth), s) == Between(0, depth) && Fits(0, before + s)
      && Out(Between(k, depth), s) == " " && Whole(Between(k, depth), s)
  {
    var s, t := "/*" + (b + "*/"), b + "*/";
    assert s[1..] == "*" + t && ("*" + t)[1..] == t;
    RemarkRead(b, false, depth);
    var full := before + s;
    assert full[|full| - 1] == '/';
    FitsZero(full);
    assert " " + "" == " ";
  }

  /** Inside quotes everything is written, up to the end. */
  lemma {:induction false} QuotedRead(q: Quote, b: string, depth: nat)
    requires Escaped(q, b)
    ensures var st, s := State(Quoted(q, false), depth), b + [q];
      Run(st, s) == Between(0, depth) && Out(st, s) == s && Whole(st, s)
    decreases |b|
  {
    var st, s := State(Quoted(q, false), depth), b + [q];
    if b == "" {
      assert s == [q];
      RunOne(st, q);
      assert [q][1..] == "";
    } else if b[0] == '\\' {
      var t := b[2..] + [q];
      assert s[1..] == [b[1]] + t && ([b[1]] + t)[1..] == t && s == [b[0]] + ([b[1]] + t);
      QuotedRead(q, b[2..], depth);
    } else {
      assert s[1..] == b[1..] + [q] && s == [b[0]] + (b[1..] + [q]);
      QuotedRead(q, b[1..], depth);
    }
  }

  lemma {:induction false} LiteralRead(q: char, b: string, before: string, k: nat, depth: nat)
    requires (q == '\'' || q == '"') && Escaped(q, b)
    ensures var s := [q] + (b + [q]);
      && Run(Between(k, depth), s) == Between(0, depth) && Fits(0, before + s)
      && Out(Between(k, depth), s) == s && Whole(Between(k, depth), s)
  {
    var s := [q] + (b + [q]);
    assert s[1..] == b + [q];
    QuotedRead(q, b, depth);
    var full := before + s;
    assert full[|full| - 1] == q;
    FitsZero(full);
  }

  /** Inside a url everything is written, up to its parenthesis. */
  lemma {:induction false} BodyRead(b: string, depth: nat)
    requires Escaped(')', b)
    ensures var st, s := State(UrlBody(false), depth), b + ")";
      Run(st, s) == Between(0, depth) && Out(st, s) == s && Whole(st, s)
    decreases |b|
  {
    var st, s := State(UrlBody(false), depth), b + ")";
    if b == "" {
      assert s == ")";
      RunOne(st, ')');
      assert ")"[1..] == "";
    } else if b[0] == '\\' {
      var t := b[2..] + ")";
      assert s[1..] == [b[1]] + t && ([b[1]] + t)[1..] == t && s == [b[0]] + ([b[1]] + t);
      BodyRead(b[2..], depth);
    } else {
      assert s[1..] == b[1..] + ")" && s == [b[0]] + (b[1..] + ")");
      BodyRead(b[1..], depth);
    }
  }

  /** From just after `url(` on. */
  lemma {:induction false} HeadRead(b: string, depth: nat)
    requires Escaped(')', b) && Unquoted(b)
    ensures var st, s := State(UrlHead, depth), b + ")";
      Run(st, s) == Between(0, depth) && Out(st, s) == s && Whole(st, s)
    decreases |b|
  {
    var st, s := State(UrlHead, depth), b + ")";
    if b == "" {
      assert s == ")" && !IsSpace(')');
      RunOne(st, ')');
      assert ")"[1..] == "";
    } else {
      var t := b[1..] + ")";
      assert s[1..] == t && s == [b[0]] + t;
      if IsSpace(b[0]) {
        HeadRead(b[1..], depth);
      } else if b[0] == '\\' {
        var u := b[2..] + ")";
        assert t[1..] == u && t == [b[1]] + u;
        BodyRead(b[2..], depth);
      } else {
        BodyRead(b[1..], depth);
      }
    }
  }

  lemma {:induction false} Cons(st: State, c: char, t: string)
    ensures Run(st, [c] + t) == Run(Next(st, c), t) && Out(st, [c] + t) == Emit(st.mode, c) + Out(Next(st, c), t)
    ensures Whole(st, [c] + t) <==> !(c == ';' && AtTop(st)) && Whole(Next(st, c), t)
  {
    assert ([c] + t)[1..] == t;
  }

  /** `url(` itself. */
  lemma {:induction false} UrlOpens(h: string, before: string, k: nat, depth: nat)
    requires UrlHeadOk(h, before) && Fits(k, before)
    ensures var st, s := Between(k, depth), h + "(";
      Run(st, s) == State(UrlHead, depth) && Out(st, s) == s && Whole(st, s)
  {
    assert EndsUrl(before, 0) && k == 0;
    Cons(Between(2, depth), h[2], "(");
    Cons(Between(1, depth), h[1], [h[2]] + "(");
    Cons(Between(0, depth), h[0], [h[1]] + ([h[2]] + "("));
    RunOne(Between(3, depth), '(');
    assert "("[1..] == "";
    assert h + "(" == [h[0]] + ([h[1]] + ([h[2]] + "("));
  }

  lemma {:induction false} Reads2(st: State, a: string, b: string)
    ensures Run(st, a + b) == Run(Run(st, a), b) && Out(st, a + b) == Out(st, a) + Out(Run(st, a), b)
    ensures Whole(st, a + b) <==> Whole(st, a) && Whole(Run(st, a), b)
  {
    RunAppend(st, a, b);
    OutAppend(st, a, b);
    WholeAppend(st, a, b);
  }

  lemma {:induction false} UrlRead(h: string, b: string, before: string, k: nat, depth: nat)
    requires UrlHeadOk(h, before) && Escaped(')', b) && Unquoted(b) && Fits(k, before)
    ensures var s := h + ("(" + (b + ")"));
      && Run(Between(k, depth), s) == Between(0, depth) && Fits(0, before + s)
      && Out(Between(k, depth), s) == s && Whole(Between(k, depth), s)
  {
    var s := h + ("(" + (b + ")"));
    UrlOpens(h, before, k, depth);
    HeadRead(b, depth);
    Reads2(Between(k, depth), h + "(", b + ")");
    assert s == h + "(" + (b + ")");
    var full := before + s;
    assert full[|full| - 1] == ')';
    FitsZero(full);
  }

  lemma {:induction false} SpacesRead(sp: string, depth: nat)
    requires AllSpace(sp)
    ensures var st := State(UrlHead, depth); Run(st, sp) == st && Out(st, sp) == sp && Whole(st, sp)
    decreases |sp|
  {
    if sp == "" {
    } else {
      SpacesRead(sp[1..], depth);
      assert sp == [sp[0]] + sp[1..];
    }
  }

  /** `url(`, white space and a quoted text. */
  lemma {:induction false} UrlQuoteRead(h: string, sp: string, q: char, b: string, before: string, k: nat, depth: nat)
    requires UrlHeadOk(h, before) && AllSpace(sp) && (q == '\'' || q == '"') && Escaped(q, b) && Fits(k, before)
    ensures var st, s := Between(k, depth), h + "(" + sp + ([q] + (b + [q]));
      Run(st, s) == Between(0, depth + 1) && Out(st, s) == s && Whole(st, s)
  {
    var t := [q] + (b + [q]);
    UrlOpens(h, before, k, depth);
    SpacesRead(sp, depth);
    Reads2(Between(k, depth), h + "(", sp);
    Reads2(Between(k, depth), h + "(" + sp, t);
    assert t[1..] == b + [q] && !IsSpace(q);
    QuotedRead(q, b, depth + 1);
  }

  /** What stands inside parentheses, and the one that closes them. */
  lemma {:induction false} ClosesRead(s: string, out: string, k: nat, k': nat, depth: nat)
    requires Run(Between(k, depth + 1), s) == Between(k', depth + 1)
    requires Out(Between(k, depth + 1), s) == out && Whole(Between(k, depth + 1), s)
    ensures var st, t := Between(k, depth + 1), s + ")";
      Run(st, t) == Between(0, depth) && Out(st, t) == out + ")" && Whole(st, t)
  {
    Reads2(Between(k, depth + 1), s, ")");
    RunOne(Between(k', depth + 1), ')');
    assert ")"[1..] == "";
  }

  // ---------- reading the grammar ----------

  /** What reading a text does that begins and ends outside everything. */
  predicate ReadAs(k: nat, depth: nat, s: string, k': nat, out: string) {
    && Run(Between(k, depth), s) == Between(k', depth)
    && Out(Between(k, depth), s) == out
  }

  /** In which cases no semicolon of the text separates. */
  predicate OnePiece(k: nat, depth: nat, s: string) { Whole(Between(k, depth), s) }

  lemma {:induction false} ParensRead(inside: Css, before: string, k: nat, depth: nat)
    requires !EndsUrl(before, 3) && CssOk(inside, "(", false) && Fits(k, before)
    ensures var s := "(" + (TextOf(inside) + ")");
      && ReadAs(k, depth, s, 0, "(" + (TextOf(Stripped(inside)) + ")")) && OnePiece(k, depth, s)
      && Fits(0, before + s)
    decreases inside, 1
  {
    var s := "(" + (TextOf(inside) + ")");
    FitsZero("(");
    var k' := CssRead(inside, "(", 0, depth + 1);
    ClosesRead(TextOf(inside), TextOf(Stripped(inside)), 0, k', depth);
    assert k != 3 && s[1..] == TextOf(inside) + ")";
    var full := before + s;
    assert full[|full| - 1] == ')';
    FitsZero(full);
  }

  lemma {:induction false} UrlOfRead(h: string, sp: string, q: char, b: string, inside: Css, before: string, k: nat,
                                     depth: nat)
    requires UrlHeadOk(h, before) && AllSpace(sp) && (q == '\'' || q == '"') && Escaped(q, b)
    requires CssOk(inside, [q], false) && Fits(k, before)
    ensures var s := TokenText(UrlOf(h, sp, q, b, inside));
      && ReadAs(k, depth, s, 0, TokenText(UrlOf(h, sp, q, b, Stripped(inside)))) && OnePiece(k, depth, s)
      && Fits(0, before + s)
    decreases inside, 1
  {
    var a := h + "(" + sp + ([q] + (b + [q]));
    var t, t' := TextOf(inside) + ")", TextOf(Stripped(inside)) + ")";
    UrlQuoteRead(h, sp, q, b, before, k, depth);
    FitsZero([q]);
    var k' := CssRead(inside, [q], 0, depth + 1);
    ClosesRead(TextOf(inside), TextOf(Stripped(inside)), 0, k', depth);
    Reads2(Between(k, depth), a, t);
    UrlOfText(h, sp, q, b, inside);
    UrlOfText(h, sp, q, b, Stripped(inside));
    var full := before + (a + t);
    assert full[|full| - 1] == ')';
    FitsZero(full);
  }

  lemma {:induction false} UrlOfText(h: string, sp: string, q: char, b: string, inside: Css)
    ensures TokenText(UrlOf(h, sp, q, b, inside)) == h + "(" + sp + ([q] + (b + [q])) + (TextOf(inside) + ")")
  {
  }

  lemma {:induction false} TokenRead(t: Token, before: string, k: nat, depth: nat) returns (k': nat)
    requires TokenOk(t, before, depth == 0) && Fits(k, before)
    ensures ReadAs(k, depth, TokenText(t), k', TokenText(StrippedToken(t))) && Fits(k', before + TokenText(t))
    ensures t.Remark? || t.UrlOf? || t.Parens? ==> k' == 0
    ensures depth > 0 || t != Semicolon ==> OnePiece(k, depth, TokenText(t))
    decreases t, 0
  {
    k' := 0;
    match t
    case Letters(s) => k' := LettersRead(s, before, k, depth);
    case Stroke(c) => StrokeRead(c, before, k, depth); k' := NextTail(0, c);
    case Remark(b) => CommentRead(b, before, k, depth);
    case Literal(q, b) => LiteralRead(q, b, before, k, depth);
    case Url(h, b) => UrlRead(h, b, before, k, depth);
    case UrlOf(h, sp, q, b, inside) => UrlOfRead(h, sp, q, b, inside, before, k, depth);
    case Parens(inside) => ParensRead(inside, before, k, depth);
    case Semicolon => MarkRead(';', before, k, depth);
    case Closing => MarkRead(')', before, k, depth);
  }

  lemma {:induction false} MarkRead(c: char, before: string, k: nat, depth: nat)
    requires c == ';' || (c == ')' && depth == 0)
    ensures ReadAs(k, depth, [c], 0, [c]) && Fits(0, before + [c])
    ensures depth > 0 || c != ';' ==> OnePiece(k, depth, [c])
  {
    RunOne(Between(k, depth), c);
    assert [c][1..] == "";
    FitsZero(before + [c]);
  }

  lemma {:induction false} CssRead(c: Css, before: string, k: nat, depth: nat) returns (k': nat)
    requires CssOk(c, before, depth == 0) && Fits(k, before)
    ensures ReadAs(k, depth, TextOf(c), k', TextOf(Stripped(c))) && Fits(k', before + TextOf(c))
    ensures depth > 0 ==> OnePiece(k, depth, TextOf(c))
    decreases c, 0
  {
    match c
    case Done =>
      k' := k;
      AppendEmpty(before);
    case Then(t, rest) =>
      var k1 := TokenRead(t, before, k, depth);
      k' := CssRead(rest, before + TokenText(t), k1, depth);
      Reads2(Between(k, depth), TokenText(t), TextOf(rest));
      Assoc(before, TokenText(t), TextOf(rest));
  }

  // ---------- comments ----------

  /** Of every text of the grammar the stripper makes the text with a space for every
      comment: those in parentheses too, but nothing in quotes or urls. */
  lemma {:induction false} StripWritten(c: Css)
    requires CssOk(c, "", true)
    ensures Strip(TextOf(c)) == TextOf(Stripped(c))
  {
    FitsZero("");
    var k := CssRead(c, "", 0, 0);
    AppendEmpty(TextOf(Stripped(c)));
  }

  /** A comment that is not closed ends with the text. */
  lemma {:induction false} StripUnclosed(c: Css, b: string)
    requires CssOk(c, "", true) && forall i :: 0 <= i < |b| - 1 && b[i] == '*' ==> b[i + 1] != '/'
    ensures Strip(TextOf(c) + ("/*" + b)) == TextOf(Stripped(c)) + " "
  {
    FitsZero("");
    var k := CssRead(c, "", 0, 0);
    Reads2(START, TextOf(c), "/*" + b);
    var s := "/*" + b;
    assert s[1..] == "*" + b && ("*" + b)[1..] == b;
    RemarkRead(b, false, 0);
    assert Out(Between(k, 0), s) == " " + "";
    AppendEmpty(TextOf(Stripped(c)) + " ");
  }

  // ---------- cutting ----------

  /** The stripped text is one of the grammar too. */
  lemma {:induction false} StrippedOk(c: Css, before: string, before': string, k: nat, depth: nat)
    requires CssOk(c, before, depth == 0) && Fits(k, before) && Fits(k, before')
    ensures CssOk(Stripped(c), before', depth == 0)
    decreases c, 0
  {
    match c
    case Done =>
    case Then(t, rest) =>
      StrippedTokenOk(t, before, before', k, depth);
      var t' := StrippedToken(t);
      var k1 := TokenRead(t, before, k, depth);
      var k2 := TokenRead(t', before', k, depth);
      if t.Remark? { assert NextTail(k, ' ') == 0; RunOne(Between(k, depth), ' '); }
      StrippedOk(rest, before + TokenText(t), before' + TokenText(t'), k1, depth);
  }

  lemma {:induction false} StrippedTokenOk(t: Token, before: string, before': string, k: nat, depth: nat)
    requires TokenOk(t, before, depth == 0) && Fits(k, before) && Fits(k, before')
    ensures TokenOk(StrippedToken(t), before', depth == 0)
    decreases t, 0
  {
    match t
    case UrlOf(h, sp, q, b, inside) =>
      FitsZero([q]);
      StrippedOk(inside, [q], [q], 0, depth + 1);
    case Parens(inside) =>
      FitsZero("(");
      StrippedOk(inside, "(", "(", 0, depth + 1);
    case Url(_, _) =>
    case _ =>
  }

  lemma {:induction false} SplitPast(st: State, cur: string, a: string, b: string)
    requires Whole(st, a)
    ensures SplitFrom(st, cur, a + b) == SplitFrom(Run(st, a), cur + a, b)
    decreases |a|
  {
    if a == "" {
      assert a + b == b;
      AppendEmpty(cur);
    } else {
      assert (a + b)[1..] == a[1..] + b;
      SplitPast(Next(st, a[0]), cur + [a[0]], a[1..], b);
      assert cur + [a[0]] + a[1..] == cur + a;
    }
  }

  lemma {:induction false} CutFrom(c: Css, before: string, k: nat, cur: string)
    requires CssOk(c, before, true) && Fits(k, before)
    ensures SplitFrom(Between(k, 0), cur, TextOf(c)) == [cur + Pieces(c)[0]] + Pieces(c)[1..]
    decreases c
  {
    match c
    case Done =>
      AppendEmpty(cur);
    case Then(t, rest) =>
      var k1 := TokenRead(t, before, k, 0);
      if t == Semicolon {
        CutFrom(rest, before + ";", 0, "");
        assert (";" + TextOf(rest))[1..] == TextOf(rest);
        AppendEmpty(cur);
        assert "" + Pieces(rest)[0] == Pieces(rest)[0];
        assert Pieces(rest) == [Pieces(rest)[0]] + Pieces(rest)[1..];
      } else {
        SplitPast(Between(k, 0), cur, TokenText(t), TextOf(rest));
        CutFrom(rest, before + TokenText(t), k1, cur + TokenText(t));
        Assoc(cur, TokenText(t), Pieces(rest)[0]);
      }
  }

  /** A text of the grammar is cut at those of its semicolons that stand in nothing
      else, a parenthesis that closes none included. */
  lemma {:induction false} SplitWritten(c: Css)
    requires CssOk(c, "", true)
    ensures Split(TextOf(c)) == Pieces(c)
  {
    FitsZero("");
    CutFrom(c, "", 0, "");
    assert "" + Pieces(c)[0] == Pieces(c)[0];
  }

  /** After a parenthesis that is not closed nothing is cut any more. */
  lemma {:induction false} SplitUnclosed(a: Css, b: Css)
    requires CssOk(a, "", true) && !EndsUrl(TextOf(a), 3) && CssOk(b, "(", false)
    requires Semicolon !in Tokens(a)
    ensures Split(TextOf(a) + ("(" + TextOf(b))) == [TextOf(a) + ("(" + TextOf(b))]
  {
    FitsZero("");
    FitsZero("(");
    var k := CssRead(a, "", 0, 0);
    var k' := CssRead(b, "(", 0, 1);
    NoSemicolon(a, "", 0);
    var s := "(" + TextOf(b);
    assert "" + TextOf(a) == TextOf(a) && s[1..] == TextOf(b);
    Reads2(START, TextOf(a), s);
    SplitWhole(START, "", TextOf(a) + s);
    assert "" + (TextOf(a) + s) == TextOf(a) + s;
  }

  function Tokens(c: Css): set<Token> {
    match c
    case Done => {}
    case Then(t, rest) => {t} + Tokens(rest)
  }

  lemma {:induction false} NoSemicolon(c: Css, before: string, k: nat)
    requires CssOk(c, before, true) && Fits(k, before) && Semicolon !in Tokens(c)
    ensures OnePiece(k, 0, TextOf(c))
    decreases c
  {
    match c
    case Done =>
    case Then(t, rest) =>
      var k1 := TokenRead(t, before, k, 0);
      NoSemicolon(rest, before + TokenText(t), k1);
      Reads2(Between(k, 0), TokenText(t), TextOf(rest));
  }

  // ---------- marking ----------

  /** An exclamation mark, white space, and `important` in any case to the end. */
  predicate SaysImportant(d: string) {
    exists i :: 0 <= i < |d| - 9 && d[i] == '!'
      && (forall j :: i < j < |d| - 9 ==> IsSpace(d[j]))
      && forall j :: 0 <= j < 9 ==> d[|d| - 9 + j] == "important"[j] || d[|d| - 9 + j] == "IMPORTANT"[j]
  }

  lemma LettersMatch(c: char, j: nat)
    requires j < 9
    ensures 'a' <= "important"[j] <= 'z'
    ensures IsLetter(c, "important"[j]) <==> c == "important"[j] || c == "IMPORTANT"[j]
  {
    assert "important"[0] == 'i' && "important"[1] == 'm' && "important"[2] == 'p' && "important"[3] == 'o'
        && "important"[4] == 'r' && "important"[5] == 't' && "important"[6] == 'a' && "important"[7] == 'n'
        && "important"[8] == 't';
    assert "IMPORTANT"[0] == 'I' && "IMPORTANT"[1] == 'M' && "IMPORTANT"[2] == 'P' && "IMPORTANT"[3] == 'O'
        && "IMPORTANT"[4] == 'R' && "IMPORTANT"[5] == 'T' && "IMPORTANT"[6] == 'A' && "IMPORTANT"[7] == 'N'
        && "IMPORTANT"[8] == 'T';
  }

  lemma {:induction false} WordMatches(w: string)
    requires |w| == 9
    ensures LowerEquals(w, "important") <==>
      forall j :: 0 <= j < 9 ==> w[j] == "important"[j] || w[j] == "IMPORTANT"[j]
  {
    forall j | 0 <= j < 9
      ensures IsLetter(w[j], "important"[j]) <==> w[j] == "important"[j] || w[j] == "IMPORTANT"[j]
    {
      LettersMatch(w[j], j);
    }
  }

  lemma {:induction false} SpacesBefore(h: string, i: nat)
    requires i < |h| && h[i] == '!' && forall j :: i < j < |h| ==> IsSpace(h[j])
    ensures TrimRight(h) == h[..i + 1]
  {
    assert h == h[..i + 1] + h[i + 1..];
    TrimRightSkips(h[..i + 1], h[i + 1..]);
    assert h[..i + 1][i] == '!' && !IsSpace('!');
  }

  lemma {:induction false} SaysEnds(d: string, i: nat)
    requires i < |d| - 9 && d[i] == '!' && forall j :: i < j < |d| - 9 ==> IsSpace(d[j])
    requires LowerEquals(d[|d| - 9..], "important")
    ensures EndsImportant(d)
  {
    SpacesBefore(d[..|d| - 9], i);
  }

  lemma {:induction false} EndsSays(d: string) returns (i: nat)
    requires EndsImportant(d)
    ensures i < |d| - 9 && d[i] == '!' && forall j :: i < j < |d| - 9 ==> IsSpace(d[j])
  {
    var h := d[..|d| - 9];
    var r := TrimRightSplits(h);
    i := |TrimRight(h)| - 1;
    assert d[i] == h[i];
    forall j | i < j < |h| ensures IsSpace(d[j]) { assert d[j] == h[j] == r[j - |TrimRight(h)|]; }
  }

  lemma {:induction false} EndsImportantIff(d: string)
    ensures EndsImportant(d) <==> SaysImportant(d)
  {
    if |d| >= 9 {
      var w := d[|d| - 9..];
      WordMatches(w);
      assert forall j :: 0 <= j < 9 ==> w[j] == d[|d| - 9 + j];
      if SaysImportant(d) {
        var i :| 0 <= i < |d| - 9 && d[i] == '!' && forall j :: i < j < |d| - 9 ==> IsSpace(d[j]);
        SaysEnds(d, i);
      }
      if EndsImportant(d) { var i := EndsSays(d); }
    }
  }

  /** What is written for a piece: its trimmed text, and the mark where it has none. */
  predicate WrittenFor(piece: string, d: string) {
    var t := Trim(piece);
    d == if SaysImportant(t) then t else t + " !important"
  }

  /** The declarations written are those read, in order: one for every piece that is
      not blank, `at` saying which. */
  ghost predicate WrittenAsRead(pieces: seq<string>, ds: seq<string>, at: seq<nat>) {
    && |at| == |ds|
    && (forall i, j :: 0 <= i < j < |at| ==> at[i] < at[j])
    && (forall i :: 0 <= i < |at| ==> at[i] < |pieces| && WrittenFor(pieces[at[i]], ds[i]))
    && (forall k :: 0 <= k < |pieces| ==> (k in at <==> !AllSpace(pieces[k])))
  }

  lemma TrimBlank(p: string)
    ensures Trim(p) == "" <==> AllSpace(p)
  {
    TrimLeftBlank(p);
    TrimRightBlank(TrimLeft(p));
    var l, r := TrimSplits(p);
    if AllSpace(p) { assert TrimRight("") == ""; }
    if Trim(p) == "" { assert p == l + r; }
  }

  lemma {:induction false} WrittenMore(pieces: seq<string>, ds: seq<string>, at: seq<nat>, p: string, d: string)
    requires WrittenAsRead(pieces, ds, at) && WrittenFor(p, d)
    ensures AllSpace(p) ==> WrittenAsRead(pieces + [p], ds, at)
    ensures !AllSpace(p) ==> WrittenAsRead(pieces + [p], ds + [d], at + [|pieces|])
  {
    var n := |pieces|;
    var pieces', at' := pieces + [p], at + [n];
    assert forall k :: 0 <= k < n ==> pieces'[k] == pieces[k];
    assert pieces'[n] == p && n !in at;
    assert forall k :: k in at' <==> k in at || k == n;
  }

  lemma {:induction false} FinishWrites(pieces: seq<string>) returns (at: seq<nat>)
    ensures WrittenAsRead(pieces, Finish(pieces), at)
  {
    if pieces == [] {
      at := [];
    } else {
      var n := |pieces| - 1;
      var p := pieces[n];
      at := FinishWrites(pieces[..n]);
      FrontLast(pieces);
      FinishLast(pieces[..n], p);
      TrimBlank(p);
      EndsImportantIff(Trim(p));
      assert Mark(Trim(p)) == if EndsImportant(Trim(p)) then Trim(p) else Trim(p) + " !important";
      WrittenMore(pieces[..n], Finish(pieces[..n]), at, p, Mark(Trim(p)));
      AppendEmpty(Finish(pieces[..n]));
      if !AllSpace(p) { at := at + [n]; }
    }
  }

  /** Of every text, open quotes, parentheses, comments and urls included: the
      declarations written are those read, each as it was if it says important
      already, and with the mark if not. */
  lemma ImportantifyWrites(css: string) returns (ds: seq<string>, at: seq<nat>)
    ensures WrittenAsRead(Split(Strip(css)), ds, at) && Importantify(css) == Join(ds, ";")
  {
    ds := Declarations(css);
    at := FinishWrites(Split(Strip(css)));
  }

  /** Of a text of the grammar: what it was written from decides what is written. */
  lemma RuleWritten(c: Css) returns (ds: seq<string>, at: seq<nat>)
    requires CssOk(c, "", true)
    ensures WrittenAsRead(Pieces(Stripped(c)), ds, at) && Importantify(TextOf(c)) == Join(ds, ";")
  {
    ds, at := ImportantifyWrites(TextOf(c));
    StripWritten(c);
    FitsZero("");
    StrippedOk(c, "", "", 0, 0);
    SplitWritten(Stripped(c));
  }
}
