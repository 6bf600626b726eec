/** The style that an imported component's host element takes over from the style
    attribute of the import (compile.ts): the declarations are read into an object
    with camelCase keys, of which those that position the host are kept.  Last come
    style texts as they are written, with their white space. */
module HostStyle {
  import opened JsText
  import opened Expr
  import opened AttributeNames

  const HOST_STYLE_PROPS: set<string> :=
    {"position", "left", "right", "top", "bottom", "inset", "width", "height", "z-index", "transform"}

  /** Assigning a text to this key of an object makes no property. */
  const PROTO := "__proto__"

  // ---------- reading declarations ----------

  function IndexOf(s: string, c: char): (i: nat)
    ensures i <= |s| && (i < |s| ==> s[i] == c)
  {
    if s == "" || s[0] == c then 0 else 1 + IndexOf(s[1..], c)
  }

  /** `s.split(c)`. */
  function Cut(s: string, c: char): (parts: seq<string>)
    ensures parts != []
    decreases |s|
  {
    var i := IndexOf(s, c);
    if i == |s| then [s] else [s[..i]] + Cut(s[i + 1..], c)
  }

  datatype Decl = Decl(prop: string, value: string)

  /** The property and the value around the first colon, if there is one. */
  function ReadDecl(text: string): Option<Decl> {
    var i := IndexOf(text, ':');
    if i == |text| then None else Some(Decl(Trim(text[..i]), Trim(text[i + 1..])))
  }

  function KeyFor(prop: string): string { if "--" <= prop then prop else KebabToCamel(prop) }

  /** The value of the last declaration that is read under a key. */
  function LastForKey(decls: seq<string>, key: string): Option<string> {
    if decls == [] then None
    else
      var d := ReadDecl(decls[|decls| - 1]);
      if d.Some? && KeyFor(d.value.prop) == key then Some(d.value.value)
      else LastForKey(decls[..|decls| - 1], key)
  }

  /** What a declaration of `prop` counts as a declaration of: itself, and `zIndex`,
      which css does not know, as `z-index`. */
  predicate CountsAs(prop: string, p: string) { prop == p || (prop == "zIndex" && p == "z-index") }

  /** The value of the last declaration that counts as one of `p`. */
  function LastOf(decls: seq<string>, p: string): Option<string> {
    if decls == [] then None
    else
      var d := ReadDecl(decls[|decls| - 1]);
      if d.Some? && CountsAs(d.value.prop, p) then Some(d.value.value) else LastOf(decls[..|decls| - 1], p)
  }

  /** The object holds, for every key, the last declaration read under it. */
  ghost predicate Reads(o: map<string, Value>, decls: seq<string>) {
    forall k :: if k in o then k != PROTO && LastForKey(decls, k).Some? && o[k] == Str(LastForKey(decls, k).value)
                else k == PROTO || LastForKey(decls, k) == None
  }

  /** One more declaration, read into the object. */
  function WithDecl(o: map<string, Value>, text: string): map<string, Value> {
    var d := ReadDecl(text);
    if d.None? || KeyFor(d.value.prop) == PROTO then o else o[KeyFor(d.value.prop) := Str(d.value.value)]
  }

  lemma {:induction false} ReadsMore(o: map<string, Value>, decls: seq<string>, n: nat)
    requires n < |decls| && Reads(o, decls[..n])
    ensures Reads(WithDecl(o, decls[n]), decls[..n + 1])
  {
    var more := decls[..n + 1];
    assert more[..|more| - 1] == decls[..n] && more[|more| - 1] == decls[n];
  }

  method CssToObj(css: string) returns (o: map<string, Value>)
    ensures Reads(o, Cut(css, ';'))
  {
    o := map[];
    var decls := Cut(css, ';');
    for n := 0 to |decls|
      invariant Reads(o, decls[..n])
    {
      ReadsMore(o, decls, n);
      var i := IndexOf(decls[n], ':');
      if i == |decls[n]| { continue; }
      var prop := Trim(decls[n][..i]);
      var key := if "--" <= prop then prop else KebabToCamel(prop);
      if key != PROTO { o := o[key := Str(Trim(decls[n][i + 1..]))]; }
    }
    assert decls[..|decls|] == decls;
  }

  // ---------- keeping what positions the host ----------

  /** A style attribute's value: a text, an object, or anything else. */
  datatype Style = Css(css: string) | Object(own: map<string, Value>) | Other

  predicate Listed(key: string) { CamelToKebab(key) in HOST_STYLE_PROPS }

  /** What is left of an object; nothing at all where no key is listed. */
  ghost predicate Kept(all: map<string, Value>, r: Option<map<string, Value>>) {
    && (r.None? <==> forall k :: k in all ==> !Listed(k))
    && (r.Some? ==> forall k :: (k in r.value <==> k in all && Listed(k)) && (k in r.value ==> r.value[k] == all[k]))
  }

  method KeepListed(all: map<string, Value>) returns (r: Option<map<string, Value>>)
    ensures Kept(all, r)
  {
    var out: map<string, Value> := map[];
    var rest := all.Keys;
    while rest != {}
      invariant rest <= all.Keys
      invariant forall k :: (k in out <==> k in all && k !in rest && Listed(k)) && (k in out ==> out[k] == all[k])
    {
      var k :| k in rest;
      if CamelToKebab(k) in HOST_STYLE_PROPS { out := out[k := all[k]]; }
      rest := rest - {k};
    }
    r := if out.Keys == {} then None else Some(out);
    if k :| k in all && Listed(k) { assert k in out.Keys; }
  }

  /** A listed property is kept exactly when it is declared, with its last value,
      and nothing else is. */
  ghost predicate KeptOfText(decls: seq<string>, r: Option<map<string, Value>>) {
    && (r.None? <==> forall p :: p in HOST_STYLE_PROPS ==> LastOf(decls, p) == None)
    && (r.Some? ==>
          && (forall p :: p in HOST_STYLE_PROPS ==>
                if KebabToCamel(p) in r.value
                then LastOf(decls, p).Some? && r.value[KebabToCamel(p)] == Str(LastOf(decls, p).value)
                else LastOf(decls, p) == None)
          && (forall k :: k in r.value ==> exists p :: p in HOST_STYLE_PROPS && k == KebabToCamel(p)))
  }

  /** Of a text exactly the listed properties are kept, each with the value of its
      last declaration; of an object the keys whose kebab form is listed. */
  method HostPositionStyle(style: Style) returns (r: Option<map<string, Value>>)
    ensures style.Other? ==> r.None?
    ensures style.Object? ==> Kept(style.own, r)
    ensures style.Css? ==> KeptOfText(Cut(style.css, ';'), r)
  {
    if style.Other? { return None; }
    var all;
    if style.Css? {
      all := CssToObj(style.css);
    } else {
      all := style.own;
    }
    r := KeepListed(all);
    if style.Css? { TextKeeps(Cut(style.css, ';'), all, r); }
  }

  // ---------- names ----------

  /** Small letters and hyphens, starting with a letter. */
  predicate Hyphenated(p: string) {
    p != "" && IsLower(p[0]) && forall i :: 0 <= i < |p| ==> IsLower(p[i]) || p[i] == '-'
  }

  lemma ListedHyphenated(p: string)
    requires p in HOST_STYLE_PROPS
    ensures Hyphenated(p)
  {
    assert Hyphenated("position") && Hyphenated("left") && Hyphenated("right") && Hyphenated("top");
    assert Hyphenated("bottom") && Hyphenated("inset") && Hyphenated("width") && Hyphenated("height");
    assert Hyphenated("z-index") && Hyphenated("transform");
  }

  lemma {:induction false} ListedNames(p: string)
    requires p in HOST_STYLE_PROPS
    ensures p != "" && IsLower(p[0]) && !HasUpper(p) && !("--" <= p)
    ensures KebabToCamel(p) != "" && KebabToCamel(p)[0] == p[0] && CamelToKebab(KebabToCamel(p)) == p
  {
    ListedHyphenated(p);
    KebabRoundTripIff(p);
  }

  /** A name without a hyphen is its own camelCase. */
  lemma {:induction false} NoHyphen(s: string)
    requires '-' !in s
    ensures KebabToCamel(s) == s
  {
    if s == "" {
    } else {
      assert forall c :: c in s[1..] ==> c in s;
      NoHyphen(s[1..]);
    }
  }

  lemma UpperFirst(s: string)
    requires s != ""
    ensures HasUpper(s) <==> IsUpper(s[0]) || HasUpper(s[1..])
  {
    var t := s[1..];
    assert forall i :: 0 <= i < |t| ==> t[i] == s[i + 1];
    if HasUpper(s) {
      var i :| 0 <= i < |s| && IsUpper(s[i]);
      if i > 0 { assert IsUpper(t[i - 1]); }
    }
    if HasUpper(t) {
      var i :| 0 <= i < |t| && IsUpper(t[i]);
      assert IsUpper(s[i + 1]);
    }
  }

  /** A hyphen and a small letter at the front. */
  predicate HumpFirst(s: string) { |s| >= 2 && s[0] == '-' && IsLower(s[1]) }

  lemma {:induction false} CamelStep(s: string)
    requires s != ""
    ensures var c := KebabToCamel(s); var k := if HumpFirst(s) then 2 else 1;
      c != "" && c[1..] == KebabToCamel(s[k..]) && c[0] == if HumpFirst(s) then ToUpper(s[1]) else s[0]
  {
  }

  /** Where camelCase has no capital, it changed nothing. */
  lemma {:induction false} NoCapitalMade(s: string)
    requires !HasUpper(KebabToCamel(s))
    ensures KebabToCamel(s) == s
  {
    if s == "" {
    } else {
      CamelStep(s);
      UpperFirst(KebabToCamel(s));
      assert !HumpFirst(s);
      NoCapitalMade(s[1..]);
    }
  }

  lemma {:induction false} ZIndexNames()
    ensures KebabToCamel("z-index") == "zIndex" && !HasUpper("ndex") && '-' !in "zIndex"
  {
    NoHyphen("ndex");
    assert "z-index"[1..] == "-index" && "-index"[2..] == "ndex";
    assert KebabToCamel("-index") == "Index";
    assert ['z'] + "Index" == "zIndex";
  }

  lemma {:induction false} IndexFrom(t: string)
    requires KebabToCamel(t) == "Index"
    ensures t == "-index" || t == "Index"
  {
    CamelStep(t);
    var k := if HumpFirst(t) then 2 else 1;
    assert "Index"[1..] == "ndex";
    ZIndexNames();
    NoCapitalMade(t[k..]);
    assert t == t[..k] + "ndex";
    assert t[..k] == if k == 2 then "-i" else "I";
  }

  /** Two texts come out as `zIndex`. */
  lemma {:induction false} ZIndexFrom(s: string)
    requires KebabToCamel(s) == "zIndex"
    ensures s == "z-index" || s == "zIndex"
  {
    CamelStep(s);
    assert "zIndex"[1..] == "Index";
    IndexFrom(s[1..]);
    assert s == ['z'] + s[1..];
  }

  /** A listed name but one is its own camelCase. */
  lemma ListedPlain(p: string)
    requires p in HOST_STYLE_PROPS && p != "z-index"
    ensures '-' !in p
  {
  }

  /** Which properties are read under the key of a listed one. */
  lemma {:induction false} KeyMatches(prop: string, p: string)
    requires p in HOST_STYLE_PROPS
    ensures KeyFor(prop) == KebabToCamel(p) <==> CountsAs(prop, p)
  {
    ListedNames(p);
    ZIndexNames();
    NoHyphen("zIndex");
    if "--" <= prop {
      assert prop[0] == '-';
    } else if p == "z-index" {
      if KebabToCamel(prop) == "zIndex" { ZIndexFrom(prop); }
    } else {
      ListedPlain(p);
      NoHyphen(p);
      if KebabToCamel(prop) == p { NoCapitalMade(prop); }
    }
  }

  lemma {:induction false} DashesDropped(s: string)
    requires "--" <= s
    ensures !Listed(s)
  {
    assert s[0] == '-' && CamelToKebab(s)[0] == '-';
    if Listed(s) { ListedNames(CamelToKebab(s)); }
  }

  /** A key is listed exactly when it is that of a listed property. */
  lemma {:induction false} ListedKey(prop: string)
    requires Listed(KeyFor(prop))
    ensures KeyFor(prop) == KebabToCamel(CamelToKebab(KeyFor(prop)))
  {
    var k := KeyFor(prop);
    if "--" <= prop {
      DashesDropped(prop);
    } else {
      CamelHasNoHump(prop);
      CamelRoundTripIff(k);
    }
  }

  /** A property is kept exactly when it is listed, or `zIndex`. */
  lemma {:induction false} KeptIff(prop: string)
    ensures Listed(KeyFor(prop)) <==>
      prop in {"position", "left", "right", "top", "bottom", "inset", "width", "height", "z-index", "transform"}
      || prop == "zIndex"
  {
    if Listed(KeyFor(prop)) {
      ListedKey(prop);
      KeyMatches(prop, CamelToKebab(KeyFor(prop)));
    }
    if prop in HOST_STYLE_PROPS {
      KeyMatches(prop, prop);
      ListedNames(prop);
    }
    if prop == "zIndex" {
      KeyMatches(prop, "z-index");
      ListedNames("z-index");
    }
  }

  /** The text with all its capitals made small. */
  function Small(s: string): (t: string)
    ensures |t| == |s|
  {
    if s == "" then "" else [if IsUpper(s[0]) then ToLower(s[0]) else s[0]] + Small(s[1..])
  }

  lemma {:induction false} SmallIff(s: string)
    ensures Small(s) == s <==> !HasUpper(s)
    ensures !HasUpper(Small(s))
  {
    if s == "" {
    } else {
      var t := Small(s);
      SmallIff(s[1..]);
      assert t[1..] == Small(s[1..]);
      assert !IsUpper(t[0]) && (t[0] == s[0] <==> !IsUpper(s[0]));
      assert HasUpper(s) <==> IsUpper(s[0]) || HasUpper(s[1..]) by { UpperFirst(s); }
      UpperFirst(t);
      assert t == s <==> t[0] == s[0] && t[1..] == s[1..];
    }
  }

  /** Css takes names in any case.  The code agrees with it exactly on names without
      a capital, and on those that are not listed in small letters either and are
      not `zIndex`. */
  lemma {:induction false} AgreesWithCssIff(prop: string)
    ensures (Listed(KeyFor(prop)) <==> Small(prop) in HOST_STYLE_PROPS) <==>
      !HasUpper(prop) || (Small(prop) !in HOST_STYLE_PROPS && prop != "zIndex")
  {
    KeptIff(prop);
    SmallIff(prop);
    if prop in HOST_STYLE_PROPS { ListedNames(prop); }
    if prop == "zIndex" {
      assert IsUpper(prop[1]);
      assert Small(prop)[1] == 'i' by { assert prop[1..][0] == 'I'; }
    }
  }

  // ---------- what is kept of a text ----------

  lemma {:induction false} LastAgrees(decls: seq<string>, p: string)
    requires p in HOST_STYLE_PROPS
    ensures LastForKey(decls, KebabToCamel(p)) == LastOf(decls, p)
  {
    if decls == [] {
    } else {
      var d := ReadDecl(decls[|decls| - 1]);
      LastAgrees(decls[..|decls| - 1], p);
      if d.Some? { KeyMatches(d.value.prop, p); }
    }
  }

  lemma {:induction false} KeyRead(decls: seq<string>, k: string)
    requires Listed(k) && LastForKey(decls, k).Some?
    ensures k == KebabToCamel(CamelToKebab(k))
  {
    var d := ReadDecl(decls[|decls| - 1]);
    if d.Some? && KeyFor(d.value.prop) == k {
      ListedKey(d.value.prop);
    } else {
      KeyRead(decls[..|decls| - 1], k);
    }
  }

  lemma {:induction false} ListedAgrees(decls: seq<string>, all: map<string, Value>, p: string)
    requires Reads(all, decls) && p in HOST_STYLE_PROPS
    ensures var k := KebabToCamel(p);
      && Listed(k) && k != PROTO && CamelToKebab(k) == p
      && if k in all then LastOf(decls, p).Some? && all[k] == Str(LastOf(decls, p).value) else LastOf(decls, p) == None
  {
    ListedNames(p);
    LastAgrees(decls, p);
  }

  lemma {:induction false} TextKeeps(decls: seq<string>, all: map<string, Value>, r: Option<map<string, Value>>)
    requires Reads(all, decls) && Kept(all, r)
    ensures KeptOfText(decls, r)
  {
    forall p | p in HOST_STYLE_PROPS
      ensures var k := KebabToCamel(p);
        && (r.None? ==> LastOf(decls, p) == None)
        && (r.Some? ==> if k in r.value then LastOf(decls, p).Some? && r.value[k] == Str(LastOf(decls, p).value)
                        else LastOf(decls, p) == None)
    {
      ListedAgrees(decls, all, p);
    }
    forall k | k in all && Listed(k)
      ensures CamelToKebab(k) in HOST_STYLE_PROPS && k == KebabToCamel(CamelToKebab(k))
      ensures LastOf(decls, CamelToKebab(k)).Some?
    {
      KeyRead(decls, k);
      ListedAgrees(decls, all, CamelToKebab(k));
    }
  }

  // ---------- style texts ----------

  lemma {:induction false} IndexOfIs(a: string, c: char, b: string)
    requires c !in a
    ensures IndexOf(a, c) == |a| && IndexOf(a + [c] + b, c) == |a|
  {
    if a == "" {
      assert (a + [c] + b)[0] == c;
    } else {
      assert (a + [c] + b)[1..] == a[1..] + [c] + b;
      assert forall d :: d in a[1..] ==> d in a;
      IndexOfIs(a[1..], c, b);
    }
  }

  lemma {:induction false} CutFirst(a: string, c: char, b: string)
    requires c !in a
    ensures Cut(a, c) == [a] && Cut(a + [c] + b, c) == [a] + Cut(b, c)
  {
    IndexOfIs(a, c, b);
    var s := a + [c] + b;
    assert s[..|a|] == a && s[|a| + 1..] == b;
  }

  /** A property, a colon and a value, with white space around each; what has no colon
      is no declaration. */
  lemma {:induction false} ReadWritten(l: string, prop: string, m: string, n: string, value: string, r: string)
    requires AllSpace(l) && AllSpace(m) && AllSpace(n) && AllSpace(r) && Trimmed(prop) && Trimmed(value)
    requires ':' !in prop
    ensures ReadDecl(l + prop + m + ":" + (n + value + r)) == Some(Decl(prop, value))
    ensures ReadDecl(l + prop + m) == None
  {
    var a, b := l + prop + m, n + value + r;
    assert forall c :: c in a ==> c in l || c in prop || c in m;
    IndexOfIs(a, ':', b);
    TrimUnique(l, prop, m);
    TrimUnique(n, value, r);
    assert (a + ":" + b)[..|a|] == a && (a + ":" + b)[|a| + 1..] == b;
  }

  /** A declaration of a style attribute, with its white space. */
  datatype Written = Written(l: string, prop: string, m: string, n: string, value: string, r: string)

  predicate WrittenOk(d: Written) {
    && AllSpace(d.l) && AllSpace(d.m) && AllSpace(d.n) && AllSpace(d.r) && Trimmed(d.prop) && Trimmed(d.value)
    && ':' !in d.prop && ';' !in d.prop && ';' !in d.value
  }

  function DeclText(d: Written): string { d.l + d.prop + d.m + ":" + (d.n + d.value + d.r) }

  /** Every declaration with its semicolon. */
  function StyleText(ds: seq<Written>): string {
    if ds == [] then "" else DeclText(ds[0]) + ";" + StyleText(ds[1..])
  }

  lemma {:induction false} DeclPlain(d: Written)
    requires WrittenOk(d)
    ensures ';' !in DeclText(d)
  {
    var t := DeclText(d);
    assert forall c :: c in t ==>
      c in d.l || c in d.prop || c in d.m || c == ':' || c in d.n || c in d.value || c in d.r;
    assert !IsSpace(';');
  }

  /** The texts of the declarations, and the empty one after the last semicolon. */
  predicate Texts(parts: seq<string>, ds: seq<Written>) {
    && |parts| == |ds| + 1 && parts[|ds|] == ""
    && forall i :: 0 <= i < |ds| ==> parts[i] == DeclText(ds[i])
  }

  lemma TextsCons(rest: seq<string>, ds: seq<Written>)
    requires ds != [] && Texts(rest, ds[1..])
    ensures Texts([DeclText(ds[0])] + rest, ds)
  {
  }

  lemma {:induction false} CutStyle(ds: seq<Written>)
    requires forall i :: 0 <= i < |ds| ==> WrittenOk(ds[i])
    ensures Texts(Cut(StyleText(ds), ';'), ds)
  {
    if ds == [] {
    } else {
      CutStyle(ds[1..]);
      DeclPlain(ds[0]);
      CutFirst(DeclText(ds[0]), ';', StyleText(ds[1..]));
      TextsCons(Cut(StyleText(ds[1..]), ';'), ds);
    }
  }

  /** The parts of a style text are its declarations and the empty text after the last. */
  predicate PartsOf(parts: seq<string>, ds: seq<Written>) {
    && |parts| == |ds| + 1 && ReadDecl(parts[|ds|]) == None
    && forall k :: 0 <= k < |ds| ==> ReadDecl(parts[k]) == Some(Decl(ds[k].prop, ds[k].value))
  }

  lemma {:induction false} StyleReads(ds: seq<Written>)
    requires forall k :: 0 <= k < |ds| ==> WrittenOk(ds[k])
    ensures PartsOf(Cut(StyleText(ds), ';'), ds)
  {
    CutStyle(ds);
    forall k | 0 <= k < |ds| ensures ReadDecl(DeclText(ds[k])) == Some(Decl(ds[k].prop, ds[k].value)) {
      ReadWritten(ds[k].l, ds[k].prop, ds[k].m, ds[k].n, ds[k].value, ds[k].r);
    }
  }

  predicate Counts(text: string, p: string) { ReadDecl(text).Some? && CountsAs(ReadDecl(text).value.prop, p) }

  /** Where the last declaration stands that counts as one of `p`. */
  lemma {:induction false} LastOfIndex(decls: seq<string>, p: string) returns (i: int)
    ensures -1 <= i < |decls| && forall j :: i < j < |decls| ==> !Counts(decls[j], p)
    ensures i == -1 ==> LastOf(decls, p) == None
    ensures i >= 0 ==> Counts(decls[i], p) && LastOf(decls, p) == Some(ReadDecl(decls[i]).value.value)
  {
    var n := |decls| - 1;
    if decls == [] {
      i := -1;
    } else if Counts(decls[n], p) {
      i := n;
    } else {
      i := LastOfIndex(decls[..n], p);
      assert forall j :: 0 <= j < n ==> decls[..n][j] == decls[j];
    }
  }

  /** The last declaration that counts as one of `p`. */
  predicate LastAt(ds: seq<Written>, p: string, i: int) {
    && -1 <= i < |ds|
    && (i >= 0 ==> ds[i].prop == p || (ds[i].prop == "zIndex" && p == "z-index"))
    && forall j :: i < j < |ds| ==> ds[j].prop != p && !(ds[j].prop == "zIndex" && p == "z-index")
  }

  lemma {:induction false} LastRead(parts: seq<string>, ds: seq<Written>, p: string, i: int)
    requires PartsOf(parts, ds) && LastAt(ds, p, i)
    ensures LastOf(parts, p) == if i == -1 then None else Some(ds[i].value)
  {
    var k := LastOfIndex(parts, p);
    assert i >= 0 ==> Counts(parts[i], p);
  }

  lemma {:induction false} StyleLast(ds: seq<Written>, p: string, i: int)
    requires (forall k :: 0 <= k < |ds| ==> WrittenOk(ds[k])) && LastAt(ds, p, i)
    ensures LastOf(Cut(StyleText(ds), ';'), p) == if i == -1 then None else Some(ds[i].value)
  {
    StyleReads(ds);
    LastRead(Cut(StyleText(ds), ';'), ds, p, i);
  }

  /** From the text of a style attribute to what is kept of it: of each of the ten
      properties the value declared last, under its camelCase name, and nothing
      where it is not declared. */
  lemma {:induction false} StyleKept(ds: seq<Written>, r: Option<map<string, Value>>, p: string, i: int)
    requires (forall k :: 0 <= k < |ds| ==> WrittenOk(ds[k])) && LastAt(ds, p, i)
    requires KeptOfText(Cut(StyleText(ds), ';'), r)
    requires p in {"position", "left", "right", "top", "bottom", "inset", "width", "height", "z-index", "transform"}
    ensures i == -1 ==> r.None? || KebabToCamel(p) !in r.value
    ensures i >= 0 ==> r.Some? && KebabToCamel(p) in r.value && r.value[KebabToCamel(p)] == Str(ds[i].value)
  {
    StyleLast(ds, p, i);
  }

  predicate Under(text: string, key: string) { ReadDecl(text).Some? && KeyFor(ReadDecl(text).value.prop) == key }

  /** Nothing after `i` is read under the key: what is read at `i` counts. */
  lemma {:induction false} LastForIs(decls: seq<string>, key: string, i: int)
    requires -1 <= i < |decls| && (i >= 0 ==> Under(decls[i], key))
    requires forall j :: i < j < |decls| ==> !Under(decls[j], key)
    ensures LastForKey(decls, key) == if i == -1 then None else Some(ReadDecl(decls[i]).value.value)
    decreases |decls|
  {
    var n := |decls| - 1;
    if i < n {
      assert !Under(decls[n], key);
      LastForIs(decls[..n], key, i);
    }
  }

  /** Custom properties keep their names, all others are read in camelCase. */
  predicate ReadUnder(d: Written, key: string) {
    if |d.prop| >= 2 && d.prop[0] == '-' && d.prop[1] == '-' then d.prop == key else KebabToCamel(d.prop) == key
  }

  lemma {:induction false} UnderIff(d: Written, key: string)
    ensures KeyFor(d.prop) == key <==> ReadUnder(d, key)
  {
    assert "--" <= d.prop <==> |d.prop| >= 2 && d.prop[0] == '-' && d.prop[1] == '-';
  }

  predicate LastUnder(ds: seq<Written>, key: string, i: int) {
    -1 <= i < |ds| && (i >= 0 ==> ReadUnder(ds[i], key)) && forall j :: i < j < |ds| ==> !ReadUnder(ds[j], key)
  }

  lemma {:induction false} LastForRead(parts: seq<string>, ds: seq<Written>, key: string, i: int)
    requires PartsOf(parts, ds) && LastUnder(ds, key, i)
    ensures LastForKey(parts, key) == if i == -1 then None else Some(ds[i].value)
  {
    forall j | i < j < |parts| ensures !Under(parts[j], key) { if j < |ds| { UnderIff(ds[j], key); } }
    if i >= 0 { UnderIff(ds[i], key); }
    LastForIs(parts, key, i);
  }

  /** And to the object that is read from it. */
  lemma {:induction false} StyleObject(ds: seq<Written>, o: map<string, Value>, key: string, i: int)
    requires (forall k :: 0 <= k < |ds| ==> WrittenOk(ds[k])) && LastUnder(ds, key, i)
    requires Reads(o, Cut(StyleText(ds), ';'))
    ensures key in o <==> i >= 0 && key != "__proto__"
    ensures key in o ==> o[key] == Str(ds[i].value)
  {
    StyleReads(ds);
    LastForRead(Cut(StyleText(ds), ';'), ds, key, i);
  }

  // ---------- style objects ----------

  lemma {:induction false} NoCapitalStays(k: string)
    requires !HasUpper(k)
    ensures CamelToKebab(k) == k
  {
    if k == "" {
    } else {
      UpperFirst(k);
      NoCapitalStays(k[1..]);
    }
  }

  lemma {:induction false} CapitalShows(k: string)
    requires HasUpper(k)
    ensures '-' in CamelToKebab(k)
  {
    UpperFirst(k);
    if IsUpper(k[0]) {
      assert CamelToKebab(k)[0] == '-';
    } else {
      CapitalShows(k[1..]);
      assert forall c :: c in CamelToKebab(k[1..]) ==> c in CamelToKebab(k);
    }
  }

  lemma NoCapital(k: string)
    requires '-' !in CamelToKebab(k)
    ensures CamelToKebab(k) == k
  {
    if HasUpper(k) { CapitalShows(k); } else { NoCapitalStays(k); }
  }

  lemma {:induction false} KebabStep(s: string)
    requires CamelToKebab(s) != ""
    ensures s != "" && var k, t := CamelToKebab(s), CamelToKebab(s[1..]);
      if IsUpper(s[0]) then |k| >= 2 && k[0] == '-' && k[1] == ToLower(s[0]) && k[2..] == t
      else k[0] == s[0] && k[1..] == t
  {
  }

  lemma {:induction false} IndexObject(t: string)
    requires CamelToKebab(t) == "-index"
    ensures t == "-index" || t == "Index"
  {
    KebabStep(t);
    assert "-index"[2..] == "ndex" && "-index"[1..] == "index";
    NoCapital(t[1..]);
    assert t == [t[0]] + t[1..];
  }

  lemma {:induction false} ZIndexObject(k: string)
    requires CamelToKebab(k) == "z-index"
    ensures k == "z-index" || k == "zIndex"
  {
    KebabStep(k);
    assert "z-index"[1..] == "-index";
    IndexObject(k[1..]);
    assert k == [k[0]] + k[1..];
  }

  lemma {:induction false} ListedOnly(k: string)
    requires Listed(k)
    ensures k in HOST_STYLE_PROPS || k == "zIndex"
  {
    if CamelToKebab(k) == "z-index" {
      ZIndexObject(k);
    } else {
      ListedPlain(CamelToKebab(k));
      NoCapital(k);
    }
  }

  /** Of an object these keys are kept. */
  lemma {:induction false} ListedIff(k: string)
    ensures Listed(k) <==>
      k in {"position", "left", "right", "top", "bottom", "inset", "width", "height", "z-index", "transform", "zIndex"}
  {
    if Listed(k) { ListedOnly(k); }
    if k in HOST_STYLE_PROPS {
      ListedNames(k);
      NoCapitalStays(k);
    }
    if k == "zIndex" {
      ZIndexNames();
      ListedNames("z-index");
    }
  }
}
