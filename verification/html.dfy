/**
 * The HTML rendering of an analysed program: `htmlConverter` in
 * htmlconverter.js (variant Current) and `toHtmlString` in
 * contexthighlighting.js (variant Legacy). The text between the nodes the
 * renderer knows is filled from the token list, and whatever no token covers
 * is copied from the source with `&`, `<` and `>` escaped.
 */
module Html {
  import opened Base
  import opened Ast
  import opened Scopes
  import Resolver

  type Variant = Resolver.Variant

  /* ---------------- sliceText: escaping ---------------- */

  predicate Special(c: char) {
    c == '&' || c == '<' || c == '>'
  }

  /** The replacement `sliceText` writes for one character. */
  function EscapeChar(c: char): string {
    if c == '&' then "&amp;" else if c == '<' then "&lt;" else if c == '>' then "&gt;" else [c]
  }

  function Escape(s: string): string {
    if s == [] then [] else EscapeChar(s[0]) + Escape(s[1..])
  }

  /** How a browser reads the escaped text back. */
  function Unescape(s: string): string
    decreases |s|
  {
    if s == [] then []
    else if |s| >= 5 && s[..5] == "&amp;" then "&" + Unescape(s[5..])
    else if |s| >= 4 && s[..4] == "&lt;" then "<" + Unescape(s[4..])
    else if |s| >= 4 && s[..4] == "&gt;" then ">" + Unescape(s[4..])
    else [s[0]] + Unescape(s[1..])
  }

  /** `sliceText(range)`: the source text of the range, escaped. */
  function SliceText(raw: string, r: Range): string {
    Escape(JsSlice(raw, r.start, r.end))
  }

  predicate NoAngle(s: string) {
    forall i :: 0 <= i < |s| ==> s[i] != '<' && s[i] != '>'
  }

  lemma {:induction false} EscapeConcat(a: string, b: string)
    ensures Escape(a + b) == Escape(a) + Escape(b)
    decreases |a|
  {
    if a != [] {
      assert (a + b)[0] == a[0] && (a + b)[1..] == a[1..] + b;
      EscapeConcat(a[1..], b);
      assert Escape(a + b) == EscapeChar(a[0]) + Escape(a[1..] + b);
      assert Escape(a) == EscapeChar(a[0]) + Escape(a[1..]);
      assert EscapeChar(a[0]) + (Escape(a[1..]) + Escape(b)) == (EscapeChar(a[0]) + Escape(a[1..])) + Escape(b);
    } else {
      assert a + b == b;
    }
  }

  /** The escaped text never contains a tag delimiter. */
  lemma {:induction false} EscapeNoAngle(s: string)
    ensures NoAngle(Escape(s))
    decreases |s|
  {
    if s != [] {
      EscapeNoAngle(s[1..]);
      var e := EscapeChar(s[0]);
      assert NoAngle(e);
      assert Escape(s) == e + Escape(s[1..]);
      forall i | 0 <= i < |Escape(s)|
        ensures Escape(s)[i] != '<' && Escape(s)[i] != '>'
      {
        if i >= |e| { assert Escape(s)[i] == Escape(s[1..])[i - |e|]; }
      }
    }
  }

  /** Exactly `&`, `<` and `>` are replaced: text without them comes back unchanged, and only such text does. */
  lemma {:induction false} EscapeKeepsExactly(s: string)
    ensures Escape(s) == s <==> forall i :: 0 <= i < |s| ==> !Special(s[i])
    decreases |s|
  {
    if s != [] {
      EscapeKeepsExactly(s[1..]);
      PlainCons(s);
      if Special(s[0]) {
        EscapeLength(s[1..]);
        assert |Escape(s)| > |s|;
      } else {
        assert Escape(s) == [s[0]] + Escape(s[1..]);
        ConsEqual(s[0], Escape(s[1..]), s[1..]);
        assert s == [s[0]] + s[1..];
      }
    }
  }

  lemma PlainCons(s: string)
    requires s != []
    ensures (forall i :: 0 <= i < |s| ==> !Special(s[i]))
        <==> !Special(s[0]) && forall i :: 0 <= i < |s[1..]| ==> !Special(s[1..][i])
  {
    if forall i :: 0 <= i < |s| ==> !Special(s[i]) {
      forall i | 0 <= i < |s[1..]| ensures !Special(s[1..][i]) { assert s[1..][i] == s[i + 1]; }
    }
    if !Special(s[0]) && forall i :: 0 <= i < |s[1..]| ==> !Special(s[1..][i]) {
      forall i | 0 <= i < |s| ensures !Special(s[i]) {
        if i > 0 { assert s[i] == s[1..][i - 1]; }
      }
    }
  }

  lemma ConsEqual(c: char, a: string, b: string)
    ensures [c] + a == [c] + b <==> a == b
  {
    if [c] + a == [c] + b {
      assert a == ([c] + a)[1..] && b == ([c] + b)[1..];
    }
  }

  lemma {:induction false} EscapeLength(s: string)
    ensures |Escape(s)| >= |s|
    decreases |s|
  {
    if s != [] { EscapeLength(s[1..]); }
  }

  /** Reading the escaped text back gives the source text. */
  lemma {:induction false} UnescapeEscape(s: string)
    ensures Unescape(Escape(s)) == s
    decreases |s|
  {
    if s != [] {
      var rest := Escape(s[1..]);
      var t := Escape(s);
      assert t == EscapeChar(s[0]) + rest;
      UnescapeEscape(s[1..]);
      if s[0] == '&' {
        assert t[..5] == "&amp;" && t[5..] == rest;
      } else if s[0] == '<' {
        assert t[1] == 'l';
        assert !(|t| >= 5 && t[..5] == "&amp;");
        assert t[..4] == "&lt;" && t[4..] == rest;
      } else if s[0] == '>' {
        assert t[1] == 'g';
        assert !(|t| >= 5 && t[..5] == "&amp;");
        assert t[..4] != "&lt;";
        assert t[..4] == "&gt;" && t[4..] == rest;
      } else {
        assert t[0] == s[0] && t[1..] == rest;
        assert !(|t| >= 5 && t[..5] == "&amp;") && !(|t| >= 4 && t[..4] == "&lt;") && !(|t| >= 4 && t[..4] == "&gt;");
      }
      assert s == [s[0]] + s[1..];
    }
  }

  /* ---------------- what a browser shows ---------------- */

  /**
   * A simplified tag stripper standing for the text a browser displays for
   * a markup string: every character outside a `<...>` tag, where every `<`
   * opens a tag. (An HTML parser reads a `<` that is not followed by a
   * letter, `/`, `!` or `?` as text; the renderer's own markup puts `<` only
   * before tag names.) `inTag` says whether the scan starts inside a tag.
   */
  function Shown(s: string, inTag: bool): string
    decreases |s|
  {
    if s == [] then []
    else if inTag then Shown(s[1..], s[0] != '>')
    else if s[0] == '<' then Shown(s[1..], true)
    else [s[0]] + Shown(s[1..], false)
  }

  /** Whether the scan of `s` ends inside a tag. */
  function After(s: string, inTag: bool): bool
    decreases |s|
  {
    if s == [] then inTag
    else if inTag then After(s[1..], s[0] != '>')
    else After(s[1..], s[0] == '<')
  }

  lemma {:induction false} ShownConcat(a: string, b: string, m: bool)
    ensures Shown(a + b, m) == Shown(a, m) + Shown(b, After(a, m))
    ensures After(a + b, m) == After(b, After(a, m))
    decreases |a|
  {
    if a != [] {
      assert (a + b)[0] == a[0] && (a + b)[1..] == a[1..] + b;
      var next := if m then a[0] != '>' else a[0] == '<';
      ShownConcat(a[1..], b, next);
      assert After(a + b, m) == After(a[1..] + b, next);
      assert After(a, m) == After(a[1..], next);
      if !m && a[0] != '<' {
        assert Shown(a + b, m) == [a[0]] + Shown(a[1..] + b, false);
        assert Shown(a, m) == [a[0]] + Shown(a[1..], false);
        assert [a[0]] + (Shown(a[1..], next) + Shown(b, After(a[1..], next)))
            == ([a[0]] + Shown(a[1..], next)) + Shown(b, After(a[1..], next));
      } else {
        assert Shown(a + b, m) == Shown(a[1..] + b, next);
        assert Shown(a, m) == Shown(a[1..], next);
      }
    } else {
      assert a + b == b;
    }
  }

  /** Text without angle brackets is shown as it is. */
  lemma {:induction false} ShownPlain(s: string)
    requires NoAngle(s)
    ensures Shown(s, false) == s && !After(s, false)
    decreases |s|
  {
    if s != [] {
      assert NoAngle(s[1..]) by {
        forall i | 0 <= i < |s[1..]| ensures s[1..][i] != '<' && s[1..][i] != '>' { assert s[1..][i] == s[i + 1]; }
      }
      ShownPlain(s[1..]);
      assert s == [s[0]] + s[1..];
    }
  }

  /** Inside a tag, text without angle brackets shows nothing and leaves the scan inside. */
  lemma {:induction false} ShownInTag(s: string)
    requires NoAngle(s)
    ensures Shown(s, true) == "" && After(s, true)
    decreases |s|
  {
    if s != [] {
      assert NoAngle(s[1..]) by {
        forall i | 0 <= i < |s[1..]| ensures s[1..][i] != '<' && s[1..][i] != '>' { assert s[1..][i] == s[i + 1]; }
      }
      ShownInTag(s[1..]);
    }
  }

  /** Escaped text is shown as it is and leaves the scan outside any tag. */
  lemma EscapeShown(s: string)
    ensures Shown(Escape(s), false) == Escape(s) && !After(Escape(s), false)
  {
    EscapeNoAngle(s);
    ShownPlain(Escape(s));
  }

  /* ---------------- doc.node / doc.text / doc.merge ---------------- */

  /** The quote character around attribute values: double in htmlconverter.js, single in contexthighlighting.js. */
  function Quote(v: Variant): char {
    if v == Resolver.Current then '"' else '\''
  }

  function AttrText(q: char, attrs: seq<(string, string)>): string {
    if attrs == [] then "" else " " + attrs[0].0 + "=" + [q] + attrs[0].1 + [q] + AttrText(q, attrs[1..])
  }

  /** `doc.node(type, attr, contents)`: `<type k="v" ...>contents</type>`, contents not escaped. */
  function Element(q: char, tag: string, attrs: seq<(string, string)>, contents: string): string {
    "<" + tag + AttrText(q, attrs) + ">" + contents + "</" + tag + ">"
  }

  function Span(v: Variant, attrs: seq<(string, string)>, contents: string): string {
    Element(Quote(v), "span", attrs, contents)
  }

  /** Tag names and attributes that cannot open or close a tag early. */
  predicate SafeAttrs(attrs: seq<(string, string)>) {
    forall i :: 0 <= i < |attrs| ==> NoAngle(attrs[i].0) && NoAngle(attrs[i].1)
  }

  lemma {:induction false} AttrTextNoAngle(q: char, attrs: seq<(string, string)>)
    requires SafeAttrs(attrs) && q != '<' && q != '>'
    ensures NoAngle(AttrText(q, attrs))
    decreases |attrs|
  {
    if attrs != [] {
      AttrTextNoAngle(q, attrs[1..]);
      var a := " " + attrs[0].0 + "=" + [q] + attrs[0].1 + [q];
      assert NoAngle(a) by {
        forall i | 0 <= i < |a| ensures a[i] != '<' && a[i] != '>' {
          if 1 <= i < 1 + |attrs[0].0| { assert a[i] == attrs[0].0[i - 1]; }
          var k := 3 + |attrs[0].0|;
          if k <= i < k + |attrs[0].1| { assert a[i] == attrs[0].1[i - k]; }
        }
      }
      NoAngleConcat(a, AttrText(q, attrs[1..]));
    }
  }

  lemma NoAngleConcat(a: string, b: string)
    requires NoAngle(a) && NoAngle(b)
    ensures NoAngle(a + b)
  {
    forall i | 0 <= i < |a + b| ensures (a + b)[i] != '<' && (a + b)[i] != '>' {
      if i >= |a| { assert (a + b)[i] == b[i - |a|]; }
    }
  }

  /**
   * An element shows exactly what its contents show, and a scan that
   * starts outside a tag ends outside one after it, whatever the contents.
   */
  lemma ElementShown(q: char, tag: string, attrs: seq<(string, string)>, contents: string)
    requires NoAngle(tag) && SafeAttrs(attrs) && q != '<' && q != '>'
    ensures Shown(Element(q, tag, attrs, contents), false) == Shown(contents, false)
    ensures !After(Element(q, tag, attrs, contents), false)
  {
    var inner := tag + AttrText(q, attrs);
    AttrTextNoAngle(q, attrs);
    NoAngleConcat(tag, AttrText(q, attrs));
    var open := "<" + inner + ">";
    var close := "</" + tag + ">";
    assert Element(q, tag, attrs, contents) == open + (contents + close);
    assert Shown(">", true) == "" && !After(">", true);
    // the opening tag shows nothing and closes
    assert Shown("<", false) == "" && After("<", false);
    assert open == "<" + (inner + ">");
    ShownConcat("<", inner + ">", false);
    ShownConcat(inner, ">", true);
    ShownInTag(inner);
    // the closing tag shows nothing and closes from either state
    var m := After(contents, false);
    assert Shown("</", m) == "" && After("</", m);
    assert close == "</" + (tag + ">");
    ShownConcat("</", tag + ">", m);
    ShownConcat(tag, ">", true);
    ShownInTag(tag);
    ShownConcat(open, contents + close, false);
    ShownConcat(contents, close, false);
  }

  /* ---------------- uniqueId ---------------- */

  function Digit(d: nat): char
    requires d < 10
  {
    ('0' as int + d) as char
  }

  predicate AllDigits(s: string) {
    forall i :: 0 <= i < |s| ==> '0' <= s[i] <= '9'
  }

  /** A number turned into a string, as JavaScript does for a non-negative integer. */
  function NatText(n: nat): (r: string)
    ensures |r| > 0 && AllDigits(r)
    decreases n
  {
    if n < 10 then [Digit(n)] else NatText(n / 10) + [Digit(n % 10)]
  }

  /** Reads decimal digits back. */
  function DigitsValue(s: string): nat
    requires AllDigits(s)
    decreases |s|
  {
    if s == [] then 0 else DigitsValue(s[..|s| - 1]) * 10 + (s[|s| - 1] as int - '0' as int)
  }

  lemma {:induction false} NatTextValue(n: nat)
    ensures DigitsValue(NatText(n)) == n
    decreases n
  {
    if n >= 10 {
      NatTextValue(n / 10);
      var s := NatText(n);
      assert s[..|s| - 1] == NatText(n / 10);
    }
  }

  /** `uniqueId("scope")` at counter value `k`. */
  function ScopeId(k: nat): string {
    "scope_" + NatText(k)
  }

  /** Different counter values give different identifiers. */
  lemma ScopeIdsDistinct(i: nat, j: nat)
    ensures ScopeId(i) == ScopeId(j) <==> i == j
  {
    if ScopeId(i) == ScopeId(j) {
      assert ScopeId(i)[6..] == NatText(i);
      assert ScopeId(j)[6..] == NatText(j);
      NatTextValue(i);
      NatTextValue(j);
    }
  }

  lemma NatTextNoAngle(n: nat)
    ensures NoAngle(NatText(n))
  {
  }

  lemma ScopeIdNoAngle(k: nat)
    ensures NoAngle(ScopeId(k))
  {
    NatTextNoAngle(k);
    NoAngleConcat("scope_", NatText(k));
  }

  /* ---------------- slices and tokens ---------------- */

  /** `new Slice(range, contents)`: the markup for one source range. */
  datatype Slice = Slice(range: Range, contents: string)

  predicate Apart(x: Range, y: Range) {
    x.end <= y.start || y.end <= x.start
  }

  predicate Within(x: Range, r: Range) {
    r.start <= x.start && x.end <= r.end
  }

  /** No two slices at different positions overlap. */
  predicate Disjoint(ss: seq<Slice>) {
    forall i, j :: 0 <= i < j < |ss| ==> Apart(ss[i].range, ss[j].range)
  }

  /** Every slice covers at least one character. */
  predicate Solid(ss: seq<Slice>) {
    forall i :: 0 <= i < |ss| ==> ss[i].range.start < ss[i].range.end
  }

  predicate SortedByStart(ss: seq<Slice>) {
    forall i, j :: 0 <= i < j < |ss| ==> ss[i].range.start <= ss[j].range.start
  }

  /** Inserts before the first slice that does not start earlier, so equal starts keep their order. */
  function Insert(x: Slice, ss: seq<Slice>): (r: seq<Slice>)
    ensures |r| == |ss| + 1
    ensures multiset(r) == multiset(ss) + multiset{x}
  {
    if ss == [] || x.range.start <= ss[0].range.start then [x] + ss
    else
      assert ss == [ss[0]] + ss[1..];
      [ss[0]] + Insert(x, ss[1..])
  }

  /** `slices.sort(function(a, b) { return a.start - b.start })`, a stable sort. */
  function SortByStart(ss: seq<Slice>): (r: seq<Slice>)
    ensures |r| == |ss|
    ensures multiset(r) == multiset(ss)
  {
    if ss == [] then []
    else
      assert ss == [ss[0]] + ss[1..];
      Insert(ss[0], SortByStart(ss[1..]))
  }

  lemma {:induction false} InsertSorted(x: Slice, ss: seq<Slice>)
    requires SortedByStart(ss)
    ensures SortedByStart(Insert(x, ss))
    decreases |ss|
  {
    if ss == [] || x.range.start <= ss[0].range.start {
      ConsSorted(x, ss);
    } else {
      var rest := Insert(x, ss[1..]);
      InsertSorted(x, ss[1..]);
      forall j | 0 <= j < |rest| ensures ss[0].range.start <= rest[j].range.start {
        InsertMember(x, ss[1..], rest[j]);
        if rest[j] != x { SortedTailMember(ss, rest[j]); }
      }
      ConsSorted(ss[0], rest);
    }
  }

  /** Whatever the insertion holds is the inserted slice or one of the list. */
  lemma InsertMember(x: Slice, ss: seq<Slice>, y: Slice)
    requires y in Insert(x, ss)
    ensures y == x || y in ss
  {
    assert y in multiset(Insert(x, ss));
  }

  lemma SortedTailMember(ss: seq<Slice>, y: Slice)
    requires SortedByStart(ss) && ss != [] && y in ss[1..]
    ensures ss[0].range.start <= y.range.start
  {
    var k :| 0 <= k < |ss[1..]| && ss[1..][k] == y;
    assert ss[k + 1] == y;
  }

  lemma ConsSorted(h: Slice, ss: seq<Slice>)
    requires SortedByStart(ss)
    requires forall j :: 0 <= j < |ss| ==> h.range.start <= ss[j].range.start
    ensures SortedByStart([h] + ss)
  {
    var r := [h] + ss;
    forall i, j | 0 <= i < j < |r| ensures r[i].range.start <= r[j].range.start {
      assert r[j] == ss[j - 1];
      if i > 0 { assert r[i] == ss[i - 1]; }
    }
  }

  /** The sort puts the slices in start order. */
  lemma {:induction false} SortSorted(ss: seq<Slice>)
    ensures SortedByStart(SortByStart(ss))
    decreases |ss|
  {
    if ss != [] {
      SortSorted(ss[1..]);
      InsertSorted(ss[0], SortByStart(ss[1..]));
    }
  }

  lemma {:induction false} InsertDisjoint(x: Slice, ss: seq<Slice>)
    requires Disjoint(ss)
    requires forall y :: y in ss ==> Apart(x.range, y.range)
    ensures Disjoint(Insert(x, ss))
    decreases |ss|
  {
    if ss == [] || x.range.start <= ss[0].range.start {
      forall j | 0 <= j < |ss| ensures Apart(x.range, ss[j].range) { assert ss[j] in ss; }
      ConsDisjoint(x, ss);
    } else {
      var rest := Insert(x, ss[1..]);
      DisjointTail(ss);
      forall y | y in ss[1..] ensures Apart(x.range, y.range) {
        assert y in ss;
      }
      InsertDisjoint(x, ss[1..]);
      forall j | 0 <= j < |rest| ensures Apart(ss[0].range, rest[j].range) {
        var y := rest[j];
        InsertMember(x, ss[1..], y);
        if y != x { DisjointTailMember(ss, y); } else { assert ss[0] in ss; }
      }
      ConsDisjoint(ss[0], rest);
    }
  }

  lemma DisjointTail(ss: seq<Slice>)
    requires Disjoint(ss) && ss != []
    ensures Disjoint(ss[1..])
  {
    var rest := ss[1..];
    forall i, j | 0 <= i < j < |rest| ensures Apart(rest[i].range, rest[j].range) {
      assert rest[i] == ss[i + 1] && rest[j] == ss[j + 1];
    }
  }

  lemma DisjointTailMember(ss: seq<Slice>, y: Slice)
    requires Disjoint(ss) && ss != [] && y in ss[1..]
    ensures Apart(ss[0].range, y.range)
  {
    var k :| 0 <= k < |ss[1..]| && ss[1..][k] == y;
    assert ss[k + 1] == y;
  }

  /** Sorting keeps exactly the elements it was given. */
  lemma SortMembers(ss: seq<Slice>)
    ensures forall x :: x in SortByStart(ss) <==> x in ss
  {
    var r := SortByStart(ss);
    forall x ensures x in r <==> x in ss {
      assert x in r <==> x in multiset(r);
      assert x in ss <==> x in multiset(ss);
    }
  }

  /** Sorting keeps a disjoint list disjoint. */
  lemma {:induction false} SortDisjoint(ss: seq<Slice>)
    requires Disjoint(ss)
    ensures Disjoint(SortByStart(ss))
    decreases |ss|
  {
    if ss != [] {
      var rest := SortByStart(ss[1..]);
      DisjointTail(ss);
      SortDisjoint(ss[1..]);
      SortMembers(ss[1..]);
      forall y | y in rest ensures Apart(ss[0].range, y.range) {
        DisjointTailMember(ss, y);
      }
      InsertDisjoint(ss[0], rest);
    }
  }

  /** The token types of the parser's token and comment lists. */
  datatype TokenType =
    | Keyword | Punctuator | Numeric | RegularExpression | String | Null
    | Line | Block
      /** `Boolean`, `Identifier` and any other type the renderers do not list. */
    | Unlisted(name: string)

  datatype Token = Token(kind: TokenType, value: string, range: Range)

  /** The class a listed token type is marked with. */
  function TokenClass(k: TokenType): Option<string> {
    match k
    case Keyword => Some("keyword")
    case Punctuator => Some("punctuator")
    case Numeric => Some("constant")
    case RegularExpression => Some("constant")
    case String => Some("constant")
    case Null => Some("constant")
    case Line => Some("comment line")
    case Block => Some("comment block")
    case Unlisted(_) => None
  }

  /**
   * The markup of a listed token: comments show their escaped source text,
   * the others their token value, copied as it is (or escaped, corrected).
   */
  function TokenMarkup(v: Variant, p: Policy, raw: string, t: Token): string
    requires TokenClass(t.kind).Some?
  {
    var text :=
      if t.kind.Line? || t.kind.Block? then SliceText(raw, t.range)
      else if p == Corrected then Escape(t.value)
      else t.value;
    Span(v, [("class", TokenClass(t.kind).value)], text)
  }

  /**
   * `collectTokenSlices` over tokens followed by comments, with `prev` the
   * markup of the last listed token ("" before the first one: an undefined
   * entry joins as the empty string). contexthighlighting.js and the
   * corrected converter skip unlisted tokens; htmlconverter.js as written
   * gives them the previous markup.
   */
  function Collect(v: Variant, p: Policy, raw: string, ts: seq<Token>, prev: string): (r: seq<Slice>)
    ensures v == Resolver.Current && p == AsWritten ==>
      |r| == |ts| && forall i :: 0 <= i < |r| ==> r[i].range == ts[i].range
  {
    if ts == [] then []
    else
      var t := ts[0];
      if TokenClass(t.kind).Some? then
        var m := TokenMarkup(v, p, raw, t);
        [Slice(t.range, m)] + Collect(v, p, raw, ts[1..], m)
      else if v == Resolver.Current && p == AsWritten then
        [Slice(t.range, prev)] + Collect(v, p, raw, ts[1..], prev)
      else
        Collect(v, p, raw, ts[1..], prev)
  }

  predicate HasRange(ts: seq<Token>, r: Range) {
    exists j :: 0 <= j < |ts| && ts[j].range == r
  }

  /** Every slice covers the range of some token. */
  predicate Covered(ss: seq<Slice>, ts: seq<Token>) {
    forall i :: 0 <= i < |ss| ==> HasRange(ts, ss[i].range)
  }

  lemma CoveredTail(ss: seq<Slice>, ts: seq<Token>)
    requires ts != [] && Covered(ss, ts[1..])
    ensures Covered(ss, ts)
  {
    forall i | 0 <= i < |ss| ensures HasRange(ts, ss[i].range) {
      var j :| 0 <= j < |ts[1..]| && ts[1..][j].range == ss[i].range;
      assert ts[j + 1].range == ss[i].range;
    }
  }

  lemma CoveredCons(s: Slice, ss: seq<Slice>, ts: seq<Token>)
    requires ts != [] && s.range == ts[0].range && Covered(ss, ts[1..])
    ensures Covered([s] + ss, ts)
  {
    CoveredTail(ss, ts);
    forall i | 0 <= i < |[s] + ss| ensures HasRange(ts, ([s] + ss)[i].range) {
      if i == 0 { assert ts[0].range == ([s] + ss)[0].range; }
      else { assert ([s] + ss)[i] == ss[i - 1]; }
    }
  }

  /** Every token slice covers the range of some token. */
  lemma {:induction false} CollectRanges(v: Variant, p: Policy, raw: string, ts: seq<Token>, prev: string)
    ensures Covered(Collect(v, p, raw, ts, prev), ts)
    decreases |ts|
  {
    if ts != [] {
      var t := ts[0];
      var m := if TokenClass(t.kind).Some? then TokenMarkup(v, p, raw, t) else prev;
      CollectRanges(v, p, raw, ts[1..], m);
      if TokenClass(t.kind).Some? || (v == Resolver.Current && p == AsWritten) {
        CoveredCons(Slice(t.range, m), Collect(v, p, raw, ts[1..], m), ts);
      } else {
        CoveredTail(Collect(v, p, raw, ts[1..], m), ts);
      }
    }
  }

  function TokenSlices(v: Variant, p: Policy, raw: string, ts: seq<Token>): seq<Slice> {
    Collect(v, p, raw, ts, "")
  }

  /** The token slices `sliceWithTokens` draws from: sorted by start once in htmlconverter.js. */
  function Pool(v: Variant, p: Policy, raw: string, ts: seq<Token>): seq<Slice> {
    if v == Resolver.Current then SortByStart(TokenSlices(v, p, raw, ts)) else TokenSlices(v, p, raw, ts)
  }

  /** contexthighlighting.js: every token slice inside the range, in list order. */
  function Filter(pool: seq<Slice>, r: Range): (out: seq<Slice>)
    ensures forall i :: 0 <= i < |out| ==> out[i] in pool && Within(out[i].range, r)
    ensures forall s :: s in pool && Within(s.range, r) ==> s in out
  {
    if pool == [] then []
    else
      assert forall s :: s in pool ==> s == pool[0] || s in pool[1..];
      (if Within(pool[0].range, r) then [pool[0]] else []) + Filter(pool[1..], r)
  }

  /**
   * htmlconverter.js: walk the sorted slices while they end inside the
   * range, keeping those that also start inside it.
   */
  function Scan(pool: seq<Slice>, r: Range): (out: seq<Slice>)
    ensures forall i :: 0 <= i < |out| ==> out[i] in pool && Within(out[i].range, r)
  {
    if pool == [] || pool[0].range.end > r.end then []
    else (if pool[0].range.start >= r.start then [pool[0]] else []) + Scan(pool[1..], r)
  }

  function Select(v: Variant, pool: seq<Slice>, r: Range): (out: seq<Slice>)
    ensures forall i :: 0 <= i < |out| ==> out[i] in pool && Within(out[i].range, r)
  {
    if v == Resolver.Current then Scan(pool, r) else Filter(pool, r)
  }

  /**
   * On slices sorted by start that are disjoint and non-empty, stopping at
   * the first slice that ends past the range loses nothing: the two
   * selections agree.
   */
  lemma {:induction false} ScanIsFilter(pool: seq<Slice>, r: Range)
    requires SortedByStart(pool) && Disjoint(pool) && Solid(pool)
    ensures Scan(pool, r) == Filter(pool, r)
    decreases |pool|
  {
    if pool != [] {
      if pool[0].range.end > r.end {
        forall k | 0 <= k < |pool| ensures !Within(pool[k].range, r) {
          if k > 0 {
            assert pool[0].range.start <= pool[k].range.start;
            assert Apart(pool[0].range, pool[k].range);
          }
        }
        FilterNone(pool, r);
      } else {
        ScanIsFilter(pool[1..], r);
      }
    }
  }

  lemma {:induction false} FilterNone(pool: seq<Slice>, r: Range)
    requires forall k :: 0 <= k < |pool| ==> !Within(pool[k].range, r)
    ensures Filter(pool, r) == []
    decreases |pool|
  {
    if pool != [] { FilterNone(pool[1..], r); }
  }

  /** A selection of a disjoint list is disjoint. */
  lemma SelectDisjoint(v: Variant, pool: seq<Slice>, r: Range)
    requires Disjoint(pool)
    ensures Disjoint(Select(v, pool, r))
  {
    if v == Resolver.Current {
      ScanDisjoint(pool, r);
    } else {
      FilterDisjoint(pool, r);
    }
  }

  lemma {:induction false} ScanDisjoint(pool: seq<Slice>, r: Range)
    requires Disjoint(pool)
    ensures Disjoint(Scan(pool, r))
    decreases |pool|
  {
    if pool != [] && pool[0].range.end <= r.end {
      DisjointTail(pool);
      ScanDisjoint(pool[1..], r);
      var tail := Scan(pool[1..], r);
      if pool[0].range.start >= r.start {
        forall k | 0 <= k < |tail| ensures Apart(pool[0].range, tail[k].range) {
          DisjointTailMember(pool, tail[k]);
        }
        ConsDisjoint(pool[0], tail);
        assert Scan(pool, r) == [pool[0]] + tail;
      } else {
        assert Scan(pool, r) == [] + tail;
      }
    }
  }

  lemma {:induction false} FilterDisjoint(pool: seq<Slice>, r: Range)
    requires Disjoint(pool)
    ensures Disjoint(Filter(pool, r))
    decreases |pool|
  {
    if pool != [] {
      DisjointTail(pool);
      FilterDisjoint(pool[1..], r);
      var tail := Filter(pool[1..], r);
      if Within(pool[0].range, r) {
        forall k | 0 <= k < |tail| ensures Apart(pool[0].range, tail[k].range) {
          DisjointTailMember(pool, tail[k]);
        }
        ConsDisjoint(pool[0], tail);
        assert Filter(pool, r) == [pool[0]] + tail;
      } else {
        assert Filter(pool, r) == [] + tail;
      }
    }
  }

  lemma ConsDisjoint(x: Slice, ss: seq<Slice>)
    requires Disjoint(ss)
    requires forall j :: 0 <= j < |ss| ==> Apart(x.range, ss[j].range)
    ensures Disjoint([x] + ss)
  {
    var r := [x] + ss;
    forall i, j | 0 <= i < j < |r| ensures Apart(r[i].range, r[j].range) {
      assert r[j] == ss[j - 1];
      if i == 0 {
        assert r[i] == x;
      } else {
        assert r[i] == ss[i - 1];
      }
    }
  }

  /* ---------------- mergeParts / sliceWithTokens ---------------- */

  /** What the renderer reads besides the tree: the source text, the token slices and the scope arena. */
  datatype Doc = Doc(raw: string, pool: seq<Slice>, envs: Envs)

  function Width(r: Range): nat {
    if r.start < r.end then r.end - r.start else 0
  }

  /** Every gap the loop of `mergeParts` fills from `pos` on is narrower than `w`. */
  predicate Fits(ss: seq<Slice>, pos: int, end: int, w: nat)
    decreases |ss|
  {
    if ss == [] then pos < end ==> end - pos < w
    else (ss[0].range.start > pos ==> ss[0].range.start - pos < w) && Fits(ss[1..], ss[0].range.end, end, w)
  }

  /**
   * The loop of `mergeParts` from position `pos` on: the gap before each
   * slice when it starts later, the slice's contents, the position moved to
   * the slice's end, and the gap after the last slice.
   */
  function Fill(v: Variant, d: Doc, ss: seq<Slice>, pos: int, end: int, ghost w: nat): string
    requires Solid(d.pool) && Fits(ss, pos, end, w)
    decreases w, 0, |ss|
  {
    if ss == [] then
      if pos < end then SliceWithTokens(v, d, Range(pos, end)) else ""
    else
      var s := ss[0];
      (if s.range.start > pos then SliceWithTokens(v, d, Range(pos, s.range.start)) else "")
      + s.contents + Fill(v, d, ss[1..], s.range.end, end, w)
  }

  /**
   * `sliceWithTokens(range)`: the token slices inside the range merged with
   * the escaped text between them, or the escaped text alone when there
   * are none.
   */
  function SliceWithTokens(v: Variant, d: Doc, r: Range): string
    requires Solid(d.pool)
    decreases Width(r), 1
  {
    var inside := Select(v, d.pool, r);
    if |inside| > 0 then
      GapsNarrow(v, d.pool, r);
      Fill(v, d, SortByStart(inside), r.start, r.end, Width(r))
    else SliceText(d.raw, r)
  }

  /** A gap between token slices of a range is narrower than the range. */
  lemma GapsNarrow(v: Variant, pool: seq<Slice>, r: Range)
    requires Solid(pool) && |Select(v, pool, r)| > 0
    ensures r.start < r.end && Fits(SortByStart(Select(v, pool, r)), r.start, r.end, Width(r))
  {
    var inside := Select(v, pool, r);
    forall i | 0 <= i < |inside| ensures r.start <= inside[i].range.start < inside[i].range.end <= r.end {
      var k :| 0 <= k < |pool| && pool[k] == inside[i];
    }
    SortedGapsNarrow(inside, r);
  }

  lemma SortedGapsNarrow(inside: seq<Slice>, r: Range)
    requires |inside| > 0
    requires forall i :: 0 <= i < |inside| ==> r.start <= inside[i].range.start < inside[i].range.end <= r.end
    ensures r.start < r.end && Fits(SortByStart(inside), r.start, r.end, Width(r))
  {
    var ss := SortByStart(inside);
    SortKeepsBounds(inside, r);
    InsideFits(ss, r.start, r.start, r.end);
    assert Range(r.start, r.end) == r;
  }

  lemma SortKeepsBounds(inside: seq<Slice>, r: Range)
    requires forall i :: 0 <= i < |inside| ==> r.start <= inside[i].range.start < inside[i].range.end <= r.end
    ensures forall i :: 0 <= i < |SortByStart(inside)| ==>
      r.start <= SortByStart(inside)[i].range.start < SortByStart(inside)[i].range.end <= r.end
  {
    var ss := SortByStart(inside);
    SortMembers(inside);
    forall i | 0 <= i < |ss| ensures r.start <= ss[i].range.start < ss[i].range.end <= r.end {
      assert ss[i] in inside;
    }
  }

  lemma {:induction false} InsideFits(ss: seq<Slice>, a: int, pos: int, b: int)
    requires forall i :: 0 <= i < |ss| ==> a <= ss[i].range.start < ss[i].range.end <= b
    requires a <= pos && (pos > a || ss != []) && (ss == [] ==> pos <= b)
    ensures a < b && Fits(ss, pos, b, Width(Range(a, b)))
    decreases |ss|
  {
    if ss != [] {
      InsideFits(ss[1..], a, ss[0].range.end, b);
    }
  }

  /** A width no gap of the loop reaches. */
  function GapBound(ss: seq<Slice>, pos: int, end: int): (w: nat)
    ensures forall u: nat :: u >= w ==> Fits(ss, pos, end, u)
    decreases |ss|
  {
    if ss == [] then (if pos < end then end - pos + 1 else 0)
    else
      var here := if ss[0].range.start > pos then ss[0].range.start - pos + 1 else 0;
      Max(here, GapBound(ss[1..], ss[0].range.end, end))
  }

  /** `mergeParts(range, slices).contents`: the slices sorted by start, with the gaps filled. */
  function MergeParts(v: Variant, d: Doc, r: Range, ss: seq<Slice>): string
    requires Solid(d.pool)
  {
    var sorted := SortByStart(ss);
    Fill(v, d, sorted, r.start, r.end, GapBound(sorted, r.start, r.end))
  }

  /* ---------------- toText ---------------- */

  /** What `toText` threads through the tree: the `uniqueId` counter and the `scope_id` of each scope node so far. */
  datatype Rendered = Rendered(slice: Slice, counter: nat, ids: map<NodeId, string>)
  datatype RenderedAll = RenderedAll(slices: seq<Slice>, counter: nat, ids: map<NodeId, string>)

  /** The annotations `toText` reads point into the arena, and every function owns a scope. */
  predicate Renderable(n: Node, envs: Envs)
    decreases n
  {
    && (IsFunction(n) ==> n.info.bindings.Some? && n.info.bindings.value < |envs|)
    && (n.info.boundIn.Some? ==> n.info.boundIn.value < |envs|)
    && forall i :: 0 <= i < |Children(n)| ==> Renderable(Children(n)[i], envs)
  }

  /** Where the i-th rendered part of a function sits among its children. */
  function PartIndex(n: Node, i: nat): (j: nat)
    requires IsFunction(n) && i < |Children(n)|
    ensures j < |Children(n)|
  {
    var named := |Children(n)| - 1 - |n.params|;
    if i < named then i else if i == named then |Children(n)| - 1 else i - 1
  }

  /** `[node.id, node.body].concat(node.params)`, where a missing name renders as nothing. */
  function FunctionParts(n: Node): (r: seq<Node>)
    requires IsFunction(n)
    ensures |r| == |Children(n)|
    ensures forall i :: 0 <= i < |r| ==> r[i] == Children(n)[PartIndex(n, i)]
  {
    (if FunctionId(n).Some? then [FunctionId(n).value] else []) + [n.fnBody] + n.params
  }

  /** `node.boundIn.scope.scope_id`: a missing id joins as "" in htmlconverter.js and concatenates as "undefined" in contexthighlighting.js. */
  function ScopeName(v: Variant, u: NodeId, ids: map<NodeId, string>): string {
    if u in ids then ids[u] else if v == Resolver.Current then "" else "undefined"
  }

  /**
   * The markup of an identifier (and of `this` in htmlconverter.js): its
   * text in a span whose class gives the level of the binding scope and
   * whose `data-scope` names it, or an "unbound" span.
   */
  function IdentifierMarkup(v: Variant, d: Doc, n: Node, ids: map<NodeId, string>): string
    requires Valid(d.envs) && Solid(d.pool)
    requires n.info.boundIn.Some? ==> n.info.boundIn.value < |d.envs|
  {
    Span(v, IdentifierAttrs(v, d, n, ids), IdentifierText(v, d, n))
  }

  /** The escaped text in htmlconverter.js, the text with its tokens in contexthighlighting.js. */
  function IdentifierText(v: Variant, d: Doc, n: Node): string
    requires Solid(d.pool)
  {
    if v == Resolver.Current then SliceText(d.raw, n.info.range) else SliceWithTokens(v, d, n.info.range)
  }

  function IdentifierAttrs(v: Variant, d: Doc, n: Node, ids: map<NodeId, string>): seq<(string, string)>
    requires Valid(d.envs)
    requires n.info.boundIn.Some? ==> n.info.boundIn.value < |d.envs|
  {
    match n.info.boundIn
    case None => [("class", if v == Resolver.Current then "id unbound" else "id")]
    case Some(h) =>
      var level := "id level" + NatText(Level(d.envs, h));
      var scope := ScopeName(v, d.envs[h].scope, ids);
      if v == Resolver.Current then [("class", level), ("data-scope", scope)] else [("data-scope", scope), ("class", level)]
  }

  /** The range a node's slice covers: the whole text for the program. */
  function SliceRange(d: Doc, n: Node): Range {
    if n.Program? then Range(0, |d.raw|) else n.info.range
  }

  /** `toText(node)` with the counter at `c` and the scope ids given so far. */
  function ToText(v: Variant, d: Doc, n: Node, c: nat, ids: map<NodeId, string>): (r: Rendered)
    requires Valid(d.envs) && Solid(d.pool) && Renderable(n, d.envs)
    ensures r.slice.range == SliceRange(d, n)
    decreases n, 1
  {
    if IsFunction(n) then
      var id := ScopeId(c);
      var parts := FunctionParts(n);
      var rs := AllToText(v, d, parts, n, c + 1, ids[n.Uid() := id]);
      var inner := MergeParts(v, d, n.info.range, rs.slices);
      Rendered(Slice(n.info.range, Span(v, FunctionAttrs(c, Level(d.envs, n.info.bindings.value)), inner)), rs.counter, rs.ids)
    else if n.Identifier? || (n.ThisExpression? && v == Resolver.Current) then
      Rendered(Slice(n.info.range, IdentifierMarkup(v, d, n, ids)), c, ids)
    else
      var r := SliceRange(d, n);
      var rs := AllToText(v, d, Children(n), n, c, ids);
      Rendered(Slice(r, MergeParts(v, d, r, rs.slices)), rs.counter, rs.ids)
  }

  /** `allToText(nodes)`: each node rendered in turn, threading the counter and the ids. */
  function AllToText(v: Variant, d: Doc, cs: seq<Node>, ghost bound: Node, c: nat, ids: map<NodeId, string>)
    : (r: RenderedAll)
    requires Valid(d.envs) && Solid(d.pool)
    requires forall i :: 0 <= i < |cs| ==> cs[i] < bound && Renderable(cs[i], d.envs)
    ensures |r.slices| == |cs|
    ensures forall i :: 0 <= i < |cs| ==> r.slices[i].range == SliceRange(d, cs[i])
    decreases bound, 0, |cs|
  {
    if cs == [] then RenderedAll([], c, ids)
    else
      var first := ToText(v, d, cs[0], c, ids);
      var rest := AllToText(v, d, cs[1..], bound, first.counter, first.ids);
      RangesCons(d, cs, first.slice, rest.slices);
      RenderedAll([first.slice] + rest.slices, rest.counter, rest.ids)
  }

  lemma RangesCons(d: Doc, cs: seq<Node>, s: Slice, ss: seq<Slice>)
    requires cs != [] && |ss| == |cs| - 1 && s.range == SliceRange(d, cs[0])
    requires forall i :: 0 <= i < |ss| ==> ss[i].range == SliceRange(d, cs[1..][i])
    ensures forall i :: 0 <= i < |cs| ==> ([s] + ss)[i].range == SliceRange(d, cs[i])
  {
    forall i | 0 <= i < |cs| ensures ([s] + ss)[i].range == SliceRange(d, cs[i]) {
      if i > 0 { assert ([s] + ss)[i] == ss[i - 1] && cs[1..][i - 1] == cs[i]; }
    }
  }

  predicate TokensSolid(ts: seq<Token>) {
    forall i :: 0 <= i < |ts| ==> ts[i].range.start < ts[i].range.end
  }

  lemma PoolSolid(v: Variant, p: Policy, raw: string, ts: seq<Token>)
    requires TokensSolid(ts)
    ensures Solid(Pool(v, p, raw, ts))
  {
    var slices := TokenSlices(v, p, raw, ts);
    CollectRanges(v, p, raw, ts, "");
    assert Solid(slices) by {
      forall i | 0 <= i < |slices| ensures slices[i].range.start < slices[i].range.end {
        assert HasRange(ts, slices[i].range);
      }
    }
    SortMembers(slices);
    var sorted := SortByStart(slices);
    forall i | 0 <= i < |sorted| ensures sorted[i].range.start < sorted[i].range.end {
      assert sorted[i] in slices;
    }
  }

  /**
   * `htmlConverter(ast, rawText)` / `toHtmlString(ast, rawText)` on an
   * analysed program: the root starts out with the id "globalscope".
   */
  function ToHtml(v: Variant, p: Policy, raw: string, ts: seq<Token>, ast: Node, envs: Envs): string
    requires Valid(envs) && TokensSolid(ts) && Renderable(ast, envs)
  {
    PoolSolid(v, p, raw, ts);
    var d := Doc(raw, Pool(v, p, raw, ts), envs);
    ToText(v, d, ast, 0, map[ast.Uid() := "globalscope"]).slice.contents
  }

  /* ---------------- the rendering shows the source ---------------- */

  /** `text` displays as the escaped source text of `r` and leaves no tag open. */
  predicate Shows(raw: string, r: Range, text: string) {
    && 0 <= r.start <= r.end <= |raw|
    && Shown(text, false) == Escape(raw[r.start..r.end])
    && !After(text, false)
  }

  predicate Faithful(raw: string, s: Slice) {
    Shows(raw, s.range, s.contents)
  }

  lemma ShowsConcat(raw: string, a: int, m: int, b: int, x: string, y: string)
    requires Shows(raw, Range(a, m), x) && Shows(raw, Range(m, b), y)
    ensures Shows(raw, Range(a, b), x + y)
  {
    SliceSplit(raw, a, m, b);
    ShownConcat(x, y, false);
    EscapeConcat(raw[a..m], raw[m..b]);
  }

  lemma SliceSplit(raw: string, a: int, m: int, b: int)
    requires 0 <= a <= m <= b <= |raw|
    ensures raw[a..b] == raw[a..m] + raw[m..b]
  {
  }

  lemma ShowsEmpty(raw: string, a: int)
    requires 0 <= a <= |raw|
    ensures Shows(raw, Range(a, a), "")
  {
  }

  lemma SliceTextShows(raw: string, r: Range)
    requires 0 <= r.start <= r.end <= |raw|
    ensures Shows(raw, r, SliceText(raw, r))
  {
    assert JsSlice(raw, r.start, r.end) == raw[r.start..r.end];
    EscapeShown(raw[r.start..r.end]);
  }

  lemma SpanShows(v: Variant, attrs: seq<(string, string)>, raw: string, r: Range, text: string)
    requires SafeAttrs(attrs) && Shows(raw, r, text)
    ensures Shows(raw, r, Span(v, attrs, text))
  {
    assert NoAngle("span");
    ElementShown(Quote(v), "span", attrs, text);
  }

  /** The token slices a renderer draws from are non-empty, disjoint, and each shows its own source text. */
  predicate PoolOk(raw: string, pool: seq<Slice>) {
    Solid(pool) && Disjoint(pool) && forall i :: 0 <= i < |pool| ==> Faithful(raw, pool[i])
  }

  /** Slices one after the other, from `pos` on and ending by `end`, each showing its own text. */
  predicate Chain(raw: string, ss: seq<Slice>, pos: int, end: int)
    decreases |ss|
  {
    if ss == [] then pos <= end
    else pos <= ss[0].range.start && Faithful(raw, ss[0]) && Chain(raw, ss[1..], ss[0].range.end, end)
  }

  /** Sorted, disjoint, non-empty slices inside a range follow one another. */
  lemma {:induction false} SortedChain(raw: string, ss: seq<Slice>, a: int, b: int)
    requires SortedByStart(ss) && Disjoint(ss) && Solid(ss) && a <= b
    requires forall i :: 0 <= i < |ss| ==> Within(ss[i].range, Range(a, b)) && Faithful(raw, ss[i])
    ensures Chain(raw, ss, a, b)
    decreases |ss|
  {
    if ss != [] {
      var rest := ss[1..];
      forall i | 0 <= i < |rest|
        ensures Within(rest[i].range, Range(ss[0].range.end, b)) && Faithful(raw, rest[i])
      {
        assert rest[i] == ss[i + 1];
        assert Apart(ss[0].range, ss[i + 1].range);
        assert ss[0].range.start <= ss[i + 1].range.start;
      }
      assert Disjoint(rest) by {
        forall i, j | 0 <= i < j < |rest| ensures Apart(rest[i].range, rest[j].range) {
          assert rest[i] == ss[i + 1] && rest[j] == ss[j + 1];
        }
      }
      SortedChain(raw, rest, ss[0].range.end, b);
    }
  }

  /** The filled gaps and the slices together show the source text from `pos` to `end`. */
  lemma {:induction false} FillShows(v: Variant, d: Doc, ss: seq<Slice>, pos: int, end: int, w: nat)
    requires PoolOk(d.raw, d.pool) && Fits(ss, pos, end, w) && Chain(d.raw, ss, pos, end)
    requires 0 <= pos && end <= |d.raw|
    ensures Shows(d.raw, Range(pos, end), Fill(v, d, ss, pos, end, w))
    decreases w, 0, |ss|
  {
    if ss == [] {
      if pos < end { SliceWithTokensShows(v, d, Range(pos, end)); }
    } else {
      var s := ss[0];
      var gap := if s.range.start > pos then SliceWithTokens(v, d, Range(pos, s.range.start)) else "";
      if s.range.start > pos { SliceWithTokensShows(v, d, Range(pos, s.range.start)); }
      var tail := Fill(v, d, ss[1..], s.range.end, end, w);
      FillShows(v, d, ss[1..], s.range.end, end, w);
      ShowsConcat(d.raw, pos, s.range.start, s.range.end, gap, s.contents);
      ShowsConcat(d.raw, pos, s.range.end, end, gap + s.contents, tail);
      assert Fill(v, d, ss, pos, end, w) == gap + s.contents + tail;
    }
  }

  /** `sliceWithTokens(range)` shows the source text of the range. */
  lemma {:induction false} SliceWithTokensShows(v: Variant, d: Doc, r: Range)
    requires PoolOk(d.raw, d.pool) && 0 <= r.start <= r.end <= |d.raw|
    ensures Shows(d.raw, r, SliceWithTokens(v, d, r))
    decreases Width(r), 1
  {
    var inside := Select(v, d.pool, r);
    if |inside| > 0 {
      GapsNarrow(v, d.pool, r);
      InsideChain(v, d.raw, d.pool, r);
      FillShows(v, d, SortByStart(inside), r.start, r.end, Width(r));
    } else {
      SliceTextShows(d.raw, r);
    }
  }

  lemma InsideChain(v: Variant, raw: string, pool: seq<Slice>, r: Range)
    requires PoolOk(raw, pool) && r.start <= r.end
    ensures Chain(raw, SortByStart(Select(v, pool, r)), r.start, r.end)
  {
    var inside := Select(v, pool, r);
    SelectDisjoint(v, pool, r);
    forall i | 0 <= i < |inside| ensures Within(inside[i].range, r) && Faithful(raw, inside[i]) && inside[i].range.start < inside[i].range.end {
      var k :| 0 <= k < |pool| && pool[k] == inside[i];
    }
    SortedSlicesChain(raw, inside, r);
  }

  /** Sorting disjoint, non-empty slices inside a range that each show their text gives a chain. */
  lemma SortedSlicesChain(raw: string, ss: seq<Slice>, r: Range)
    requires Disjoint(ss) && r.start <= r.end
    requires forall i :: 0 <= i < |ss| ==> Within(ss[i].range, r) && Faithful(raw, ss[i]) && ss[i].range.start < ss[i].range.end
    ensures Chain(raw, SortByStart(ss), r.start, r.end)
  {
    var sorted := SortByStart(ss);
    SortDisjoint(ss);
    SortSorted(ss);
    SortMembers(ss);
    forall i | 0 <= i < |sorted|
      ensures Within(sorted[i].range, Range(r.start, r.end)) && Faithful(raw, sorted[i]) && sorted[i].range.start < sorted[i].range.end
    {
      assert sorted[i] in ss;
    }
    SortedChain(raw, sorted, r.start, r.end);
  }

  /** `mergeParts(range, slices)` shows the source text of the range when the slices are disjoint, non-empty, inside it and faithful. */
  lemma MergeShows(v: Variant, d: Doc, r: Range, ss: seq<Slice>)
    requires PoolOk(d.raw, d.pool) && 0 <= r.start <= r.end <= |d.raw|
    requires Disjoint(ss)
    requires forall i :: 0 <= i < |ss| ==> Within(ss[i].range, r) && Faithful(d.raw, ss[i]) && ss[i].range.start < ss[i].range.end
    ensures Shows(d.raw, r, MergeParts(v, d, r, ss))
  {
    var sorted := SortByStart(ss);
    SortedSlicesChain(d.raw, ss, r);
    FillShows(v, d, sorted, r.start, r.end, GapBound(sorted, r.start, r.end));
  }

  /** Every node below the program covers a non-empty part of the text and is not a program itself. */
  predicate Laid(n: Node, len: int)
    decreases n
  {
    && !n.Program?
    && 0 <= n.Start() < n.End() <= len
    && forall i :: 0 <= i < |Children(n)| ==> Laid(Children(n)[i], len)
  }

  predicate SafeIds(ids: map<NodeId, string>) {
    forall u :: u in ids ==> NoAngle(ids[u])
  }

  lemma IdentifierShows(v: Variant, d: Doc, n: Node, ids: map<NodeId, string>)
    requires PoolOk(d.raw, d.pool) && Valid(d.envs) && SafeIds(ids)
    requires n.info.boundIn.Some? ==> n.info.boundIn.value < |d.envs|
    requires 0 <= n.Start() <= n.End() <= |d.raw|
    ensures Shows(d.raw, n.info.range, IdentifierMarkup(v, d, n, ids))
  {
    if v == Resolver.Current {
      SliceTextShows(d.raw, n.info.range);
    } else {
      SliceWithTokensShows(v, d, n.info.range);
    }
    IdentifierAttrsSafe(v, d, n, ids);
    SpanShows(v, IdentifierAttrs(v, d, n, ids), d.raw, n.info.range, IdentifierText(v, d, n));
  }

  lemma IdentifierAttrsSafe(v: Variant, d: Doc, n: Node, ids: map<NodeId, string>)
    requires Valid(d.envs) && SafeIds(ids)
    requires n.info.boundIn.Some? ==> n.info.boundIn.value < |d.envs|
    ensures SafeAttrs(IdentifierAttrs(v, d, n, ids))
  {
    match n.info.boundIn
    case None =>
      assert NoAngle("class") && NoAngle("id unbound") && NoAngle("id");
    case Some(h) =>
      var level := "id level" + NatText(Level(d.envs, h));
      var scope := ScopeName(v, d.envs[h].scope, ids);
      NatTextNoAngle(Level(d.envs, h));
      NoAngleConcat("id level", NatText(Level(d.envs, h)));
      ScopeNameNoAngle(v, d.envs[h].scope, ids);
      assert NoAngle("class") && NoAngle("data-scope");
      PairSafe("class", level, "data-scope", scope);
      PairSafe("data-scope", scope, "class", level);
  }

  lemma ScopeNameNoAngle(v: Variant, u: NodeId, ids: map<NodeId, string>)
    requires SafeIds(ids)
    ensures NoAngle(ScopeName(v, u, ids))
  {
    assert NoAngle("") && NoAngle("undefined");
  }

  lemma PairSafe(a: string, b: string, c: string, e: string)
    requires NoAngle(a) && NoAngle(b) && NoAngle(c) && NoAngle(e)
    ensures SafeAttrs([(a, b), (c, e)])
  {
    var attrs := [(a, b), (c, e)];
    assert attrs[0] == (a, b) && attrs[1] == (c, e);
  }

  /** The parts of a function are its children in another order, so they are pairwise apart too. */
  lemma PartsApart(n: Node)
    requires IsFunction(n) && Nested(n)
    ensures forall i, j :: 0 <= i < j < |FunctionParts(n)| ==>
      Apart(FunctionParts(n)[i].info.range, FunctionParts(n)[j].info.range)
  {
    var parts := FunctionParts(n);
    var cs := Children(n);
    forall i, j | 0 <= i < j < |parts| ensures Apart(parts[i].info.range, parts[j].info.range) {
      var a, b := PartIndex(n, i), PartIndex(n, j);
      assert a != b;
      if a < b {
        assert cs[a].End() <= cs[b].Start();
      } else {
        assert cs[b].End() <= cs[a].Start();
      }
    }
  }

  /** Slices of laid-out nodes that are pairwise apart and inside `r` meet the premises of `MergeShows`. */
  lemma NodeSlices(d: Doc, cs: seq<Node>, ss: seq<Slice>, r: Range)
    requires |ss| == |cs|
    requires forall i :: 0 <= i < |cs| ==> ss[i].range == SliceRange(d, cs[i]) && Laid(cs[i], |d.raw|)
    requires forall i :: 0 <= i < |cs| ==> r.start <= cs[i].Start() && cs[i].End() <= r.end
    requires forall i, j :: 0 <= i < j < |cs| ==> Apart(cs[i].info.range, cs[j].info.range)
    ensures Disjoint(ss)
    ensures forall i :: 0 <= i < |ss| ==> Within(ss[i].range, r) && ss[i].range.start < ss[i].range.end
  {
  }

  /** Each node's slice shows the source text of its range. */
  lemma {:induction false} ToTextShows(v: Variant, d: Doc, n: Node, c: nat, ids: map<NodeId, string>)
    requires PoolOk(d.raw, d.pool) && Valid(d.envs) && Renderable(n, d.envs) && SafeIds(ids)
    requires Laid(n, |d.raw|) && Nested(n)
    ensures Faithful(d.raw, ToText(v, d, n, c, ids).slice)
    ensures SafeIds(ToText(v, d, n, c, ids).ids)
    decreases n, 2
  {
    if IsFunction(n) {
      FunctionShows(v, d, n, c, ids);
    } else if n.Identifier? || (n.ThisExpression? && v == Resolver.Current) {
      IdentifierShows(v, d, n, ids);
    } else {
      OtherShows(v, d, n, c, ids);
    }
  }

  lemma {:induction false} FunctionShows(v: Variant, d: Doc, n: Node, c: nat, ids: map<NodeId, string>)
    requires PoolOk(d.raw, d.pool) && Valid(d.envs) && Renderable(n, d.envs) && SafeIds(ids)
    requires Laid(n, |d.raw|) && Nested(n) && IsFunction(n)
    ensures Faithful(d.raw, ToText(v, d, n, c, ids).slice)
    ensures SafeIds(ToText(v, d, n, c, ids).ids)
    decreases n, 1
  {
    var id := ScopeId(c);
    var ids' := ids[n.Uid() := id];
    ScopeIdNoAngle(c);
    var parts := FunctionParts(n);
    AllToTextShows(v, d, parts, n, c + 1, ids');
    var rs := AllToText(v, d, parts, n, c + 1, ids');
    PartsApart(n);
    NodeSlices(d, parts, rs.slices, n.info.range);
    MergeShows(v, d, n.info.range, rs.slices);
    var level := Level(d.envs, n.info.bindings.value);
    FunctionAttrsSafe(c, level);
    SpanShows(v, FunctionAttrs(c, level), d.raw, n.info.range, MergeParts(v, d, n.info.range, rs.slices));
  }

  /** The attributes of a function's span: its fresh scope id and its level. */
  function FunctionAttrs(c: nat, level: nat): seq<(string, string)> {
    [("id", ScopeId(c)), ("class", "function level" + NatText(level))]
  }

  lemma FunctionAttrsSafe(c: nat, level: nat)
    ensures SafeAttrs(FunctionAttrs(c, level))
  {
    ScopeIdNoAngle(c);
    NatTextNoAngle(level);
    var prefix := "function level";
    assert NoAngle(prefix) by {
      forall i | 0 <= i < |prefix| ensures prefix[i] != '<' && prefix[i] != '>' { }
    }
    NoAngleConcat(prefix, NatText(level));
    assert NoAngle("id") && NoAngle("class");
  }

  lemma {:induction false} OtherShows(v: Variant, d: Doc, n: Node, c: nat, ids: map<NodeId, string>)
    requires PoolOk(d.raw, d.pool) && Valid(d.envs) && Renderable(n, d.envs) && SafeIds(ids)
    requires Laid(n, |d.raw|) && Nested(n)
    requires !IsFunction(n) && !n.Identifier? && !(n.ThisExpression? && v == Resolver.Current)
    ensures Faithful(d.raw, ToText(v, d, n, c, ids).slice)
    ensures SafeIds(ToText(v, d, n, c, ids).ids)
    decreases n, 1
  {
    var cs := Children(n);
    AllToTextShows(v, d, cs, n, c, ids);
    var rs := AllToText(v, d, cs, n, c, ids);
    NodeSlices(d, cs, rs.slices, n.info.range);
    MergeShows(v, d, n.info.range, rs.slices);
  }

  lemma {:induction false} AllToTextShows(v: Variant, d: Doc, cs: seq<Node>, bound: Node, c: nat, ids: map<NodeId, string>)
    requires PoolOk(d.raw, d.pool) && Valid(d.envs) && SafeIds(ids)
    requires forall i :: 0 <= i < |cs| ==> cs[i] < bound && Renderable(cs[i], d.envs)
    requires forall i :: 0 <= i < |cs| ==> Laid(cs[i], |d.raw|) && Nested(cs[i])
    ensures forall i :: 0 <= i < |cs| ==> Faithful(d.raw, AllToText(v, d, cs, bound, c, ids).slices[i])
    ensures SafeIds(AllToText(v, d, cs, bound, c, ids).ids)
    decreases bound, 0, |cs|
  {
    if cs != [] {
      var first := ToText(v, d, cs[0], c, ids);
      ToTextShows(v, d, cs[0], c, ids);
      AllToTextShows(v, d, cs[1..], bound, first.counter, first.ids);
      var rest := AllToText(v, d, cs[1..], bound, first.counter, first.ids);
      var r := AllToText(v, d, cs, bound, c, ids);
      assert r.slices == [first.slice] + rest.slices;
      FaithfulCons(d.raw, first.slice, rest.slices);
    }
  }

  lemma FaithfulCons(raw: string, x: Slice, xs: seq<Slice>)
    requires Faithful(raw, x) && forall i :: 0 <= i < |xs| ==> Faithful(raw, xs[i])
    ensures forall i :: 0 <= i < |xs| + 1 ==> Faithful(raw, ([x] + xs)[i])
  {
    forall i | 0 <= i < |xs| + 1 ensures Faithful(raw, ([x] + xs)[i]) {
      if i > 0 { assert ([x] + xs)[i] == xs[i - 1]; }
    }
  }

  /* ---------------- the token pool and the whole page ---------------- */

  /**
   * Tokens as the parser reports them: each covers a non-empty part of the
   * text, a listed non-comment token's value is its source text, and no two
   * overlap.
   */
  predicate TokensOk(raw: string, ts: seq<Token>) {
    && (forall i :: 0 <= i < |ts| ==> 0 <= ts[i].range.start < ts[i].range.end <= |raw|)
    && (forall i :: 0 <= i < |ts| && TokenClass(ts[i].kind).Some? && !ts[i].kind.Line? && !ts[i].kind.Block? ==>
          ts[i].value == raw[ts[i].range.start..ts[i].range.end])
    && (forall i, j :: 0 <= i < j < |ts| ==> Apart(ts[i].range, ts[j].range))
  }

  lemma TokensOkTail(raw: string, ts: seq<Token>)
    requires ts != [] && TokensOk(raw, ts)
    ensures TokensOk(raw, ts[1..])
  {
    var rest := ts[1..];
    forall i, j | 0 <= i < j < |rest| ensures Apart(rest[i].range, rest[j].range) {
      assert rest[i] == ts[i + 1] && rest[j] == ts[j + 1];
    }
  }

  lemma TokenClassSafe(k: TokenType)
    requires TokenClass(k).Some?
    ensures SafeAttrs([("class", TokenClass(k).value)])
  {
    var c := TokenClass(k).value;
    assert NoAngle(c) by {
      forall i | 0 <= i < |c| ensures c[i] != '<' && c[i] != '>' { }
    }
    assert NoAngle("class");
  }

  /** With token values escaped, a listed token's markup shows its source text. */
  lemma TokenMarkupShows(v: Variant, raw: string, t: Token)
    requires TokenClass(t.kind).Some? && TokensOk(raw, [t])
    ensures Shows(raw, t.range, TokenMarkup(v, Corrected, raw, t))
  {
    assert [t][0] == t;
    var text :=
      if t.kind.Line? || t.kind.Block? then SliceText(raw, t.range) else Escape(t.value);
    if t.kind.Line? || t.kind.Block? {
      SliceTextShows(raw, t.range);
    } else {
      EscapeShown(t.value);
    }
    TokenClassSafe(t.kind);
    SpanShows(v, [("class", TokenClass(t.kind).value)], raw, t.range, text);
  }

  /** The corrected token slices are non-empty, disjoint and show their own source text. */
  lemma {:induction false} CollectOk(v: Variant, raw: string, ts: seq<Token>, prev: string)
    requires TokensOk(raw, ts)
    ensures PoolOk(raw, Collect(v, Corrected, raw, ts, prev))
    decreases |ts|
  {
    if ts != [] {
      var t := ts[0];
      TokensOkTail(raw, ts);
      var m := if TokenClass(t.kind).Some? then TokenMarkup(v, Corrected, raw, t) else prev;
      CollectOk(v, raw, ts[1..], m);
      var tail := Collect(v, Corrected, raw, ts[1..], m);
      if TokenClass(t.kind).Some? {
        TokensOkHead(raw, ts);
        TokenMarkupShows(v, raw, t);
        CollectRanges(v, Corrected, raw, ts[1..], m);
        HeadApart(raw, ts, tail);
        PoolCons(raw, Slice(t.range, m), tail);
      }
    }
  }

  lemma TokensOkHead(raw: string, ts: seq<Token>)
    requires ts != [] && TokensOk(raw, ts)
    ensures TokensOk(raw, [ts[0]])
  {
    assert [ts[0]][0] == ts[0];
  }

  /** The first token lies apart from every slice covering a later token. */
  lemma HeadApart(raw: string, ts: seq<Token>, tail: seq<Slice>)
    requires ts != [] && TokensOk(raw, ts) && Covered(tail, ts[1..])
    ensures forall k :: 0 <= k < |tail| ==> Apart(ts[0].range, tail[k].range)
  {
    forall k | 0 <= k < |tail| ensures Apart(ts[0].range, tail[k].range) {
      assert HasRange(ts[1..], tail[k].range);
      var j :| 0 <= j < |ts[1..]| && ts[1..][j].range == tail[k].range;
      assert ts[j + 1].range == tail[k].range;
    }
  }

  lemma PoolCons(raw: string, x: Slice, tail: seq<Slice>)
    requires PoolOk(raw, tail) && Faithful(raw, x) && x.range.start < x.range.end
    requires forall k :: 0 <= k < |tail| ==> Apart(x.range, tail[k].range)
    ensures PoolOk(raw, [x] + tail)
  {
    ConsDisjoint(x, tail);
    var r := [x] + tail;
    forall i | 0 <= i < |r| ensures Faithful(raw, r[i]) && r[i].range.start < r[i].range.end {
      if i > 0 { assert r[i] == tail[i - 1]; }
    }
  }

  /** The corrected pool meets the premises of `MergeShows`, sorted or not. */
  lemma CorrectedPoolOk(v: Variant, raw: string, ts: seq<Token>)
    requires TokensOk(raw, ts)
    ensures PoolOk(raw, Pool(v, Corrected, raw, ts))
  {
    var slices := TokenSlices(v, Corrected, raw, ts);
    CollectOk(v, raw, ts, "");
    if v == Resolver.Current {
      var sorted := SortByStart(slices);
      SortDisjoint(slices);
      SortMembers(slices);
      forall i | 0 <= i < |sorted| ensures Faithful(raw, sorted[i]) && sorted[i].range.start < sorted[i].range.end {
        assert sorted[i] in slices;
      }
    }
  }

  /** The program's slice covers the whole text. */
  lemma ProgramShows(v: Variant, d: Doc, n: Node, ids: map<NodeId, string>)
    requires PoolOk(d.raw, d.pool) && Valid(d.envs) && Renderable(n, d.envs) && SafeIds(ids)
    requires n.Program? && Nested(n)
    requires forall i :: 0 <= i < |n.body| ==> Laid(n.body[i], |d.raw|)
    ensures Faithful(d.raw, ToText(v, d, n, 0, ids).slice)
  {
    var cs := Children(n);
    AllToTextShows(v, d, cs, n, 0, ids);
    var rs := AllToText(v, d, cs, n, 0, ids);
    NodeSlices(d, cs, rs.slices, Range(0, |d.raw|));
    MergeShows(v, d, Range(0, |d.raw|), rs.slices);
  }

  /**
   * With token values escaped, the page shows the source text: stripped of
   * its tags and unescaped, the markup of a well-laid program is exactly
   * the text it was rendered from.
   */
  lemma RenderShowsSource(v: Variant, raw: string, ts: seq<Token>, ast: Node, envs: Envs)
    requires Valid(envs) && Renderable(ast, envs) && TokensOk(raw, ts)
    requires ast.Program? && Nested(ast)
    requires forall i :: 0 <= i < |ast.body| ==> Laid(ast.body[i], |raw|)
    ensures TokensSolid(ts)
    ensures Shown(ToHtml(v, Corrected, raw, ts, ast, envs), false) == Escape(raw)
    ensures Unescape(Shown(ToHtml(v, Corrected, raw, ts, ast, envs), false)) == raw
  {
    CorrectedPoolOk(v, raw, ts);
    var d := Doc(raw, Pool(v, Corrected, raw, ts), envs);
    var ids := map[ast.Uid() := "globalscope"];
    assert SafeIds(ids) by {
      var g := "globalscope";
      assert NoAngle(g) by {
        forall i | 0 <= i < |g| ensures g[i] != '<' && g[i] != '>' { }
      }
    }
    ProgramShows(v, d, ast, ids);
    assert raw[0..|raw|] == raw;
    UnescapeEscape(raw);
  }

  /* ---------------- the analysis leaves a renderable tree ---------------- */

  /** A list of trees whose annotations all point into the arena. */
  predicate RenderableAll(cs: seq<Node>, envs: Envs) {
    forall i :: 0 <= i < |cs| ==> Renderable(cs[i], envs)
  }

  lemma RenderableConcat(xs: seq<Node>, ys: seq<Node>, envs: Envs)
    requires RenderableAll(xs, envs) && RenderableAll(ys, envs)
    ensures RenderableAll(xs + ys, envs)
  {
    forall i | 0 <= i < |xs + ys| ensures Renderable((xs + ys)[i], envs) {
      if i >= |xs| { assert (xs + ys)[i] == ys[i - |xs|]; }
    }
  }

  lemma RenderableCons(c: Node, rest: seq<Node>, envs: Envs)
    requires Renderable(c, envs) && RenderableAll(rest, envs)
    ensures RenderableAll([c] + rest, envs)
  {
    RenderableConcat([c], rest, envs);
  }

  /** A longer arena keeps every annotation in range. */
  lemma {:induction false} RenderableGrows(n: Node, a: Envs, b: Envs)
    requires Renderable(n, a) && |a| <= |b|
    ensures Renderable(n, b)
    decreases n
  {
    forall i | 0 <= i < |Children(n)| ensures Renderable(Children(n)[i], b) {
      RenderableGrows(Children(n)[i], a, b);
    }
  }

  /** A function whose annotation and parts are in range is renderable. */
  lemma RenderableFunction(m: Node, envs: Envs)
    requires IsFunction(m) && m.info.bindings.Some? && m.info.bindings.value < |envs|
    requires m.info.boundIn.Some? ==> m.info.boundIn.value < |envs|
    requires FunctionId(m).Some? ==> Renderable(FunctionId(m).value, envs)
    requires RenderableAll(m.params, envs) && Renderable(m.fnBody, envs)
    ensures Renderable(m, envs)
  {
    var ids := if FunctionId(m).Some? then [FunctionId(m).value] else [];
    RenderableConcat(ids, m.params, envs);
    RenderableConcat(ids + m.params, [m.fnBody], envs);
    assert Children(m) == ids + m.params + [m.fnBody];
  }

  /** An identifier without annotations renders whatever the arena. */
  lemma BareIdentifierRenderable(n: Node, envs: Envs)
    requires n.Identifier? && n.info.boundIn.None?
    ensures Renderable(n, envs)
  {
  }

  lemma BareParamsRenderable(ps: seq<Node>, envs: Envs)
    requires forall i :: 0 <= i < |ps| ==> ps[i].Identifier? && ps[i].info.boundIn.None?
    ensures RenderableAll(ps, envs)
  {
  }

  /** The parameters of an unanalysed function are identifiers without annotations. */
  lemma UnanalysedParams(n: Node)
    requires IsFunction(n) && Unanalysed(n)
    ensures forall i :: 0 <= i < |n.params| ==> n.params[i].Identifier? && n.params[i].info.boundIn.None?
  {
    var ids := if FunctionId(n).Some? then [FunctionId(n).value] else [];
    assert Children(n) == ids + n.params + [n.fnBody];
    forall i | 0 <= i < |n.params| ensures n.params[i].info.boundIn.None? {
      assert n.params[i] == Children(n)[|ids| + i];
    }
  }

  /** After pass 1 over an unanalysed tree, every function owns a scope of the arena and nothing else is annotated. */
  lemma {:induction false} DeclareRenderable(v: Variant, n: Node, env: EnvId, envs: Envs)
    requires Valid(envs) && env < |envs| && Unanalysed(n) && Resolver.NamesAreIdentifiers(n)
    ensures var r := Resolver.Declare(v, n, env, envs); Renderable(r.0, r.1)
    decreases n, 1
  {
    if IsFunction(n) {
      DeclareFunctionRenderable(v, n, env, envs);
    } else if n.VariableDeclarator? {
      DeclareDeclaratorRenderable(v, n, env, envs);
    } else {
      var (cs, e1) := Resolver.DeclareAll(v, Children(n), n, env, envs);
      DeclareAllRenderable(v, Children(n), n, env, envs);
      assert Resolver.Declare(v, n, env, envs) == (WithChildren(n, cs), e1);
      assert Children(WithChildren(n, cs)) == cs;
    }
  }

  lemma {:induction false} DeclareFunctionRenderable(v: Variant, n: Node, env: EnvId, envs: Envs)
    requires Valid(envs) && env < |envs| && Unanalysed(n) && Resolver.NamesAreIdentifiers(n) && IsFunction(n)
    ensures var r := Resolver.Declare(v, n, env, envs); Renderable(r.0, r.1)
    decreases n, 0
  {
    var fe := |envs|;
    var e4 := Resolver.EnterFunction(v, n, env, envs);
    var (body, e5) := Resolver.Declare(v, n.fnBody, fe, e4);
    var m := n.(info := n.info.(bindings := Some(fe)), fnBody := body);
    assert Resolver.Declare(v, n, env, envs) == Resolver.DeclareFunction(v, n, env, envs);
    assert Resolver.Declare(v, n, env, envs) == (m, e5);
    Resolver.FunctionNamesAreIdentifiers(n);
    assert Unanalysed(n.fnBody) by { assert n.fnBody == Children(n)[|Children(n)| - 1]; }
    DeclareRenderable(v, n.fnBody, fe, e4);
    if FunctionId(n).Some? {
      assert Unanalysed(FunctionId(n).value) by { assert FunctionId(n).value == Children(n)[0]; }
      BareIdentifierRenderable(FunctionId(m).value, e5);
    }
    UnanalysedParams(n);
    BareParamsRenderable(m.params, e5);
    RenderableFunction(m, e5);
  }

  lemma {:induction false} DeclareDeclaratorRenderable(v: Variant, n: Node, env: EnvId, envs: Envs)
    requires Valid(envs) && env < |envs| && Unanalysed(n) && Resolver.NamesAreIdentifiers(n) && n.VariableDeclarator?
    ensures var r := Resolver.Declare(v, n, env, envs); Renderable(r.0, r.1)
    decreases n, 0
  {
    var e1 := AddBindingInstance(envs, env, BindingName(n.id), n.Uid());
    assert Unanalysed(n.id) && Resolver.NamesAreIdentifiers(n.id) by { assert n.id == Children(n)[0]; }
    if n.init.Some? {
      var (init, e2) := Resolver.Declare(v, n.init.value, env, e1);
      assert Resolver.Declare(v, n, env, envs) == (n.(init := Some(init)), e2);
      assert Unanalysed(n.init.value) && Resolver.NamesAreIdentifiers(n.init.value) by {
        assert n.init.value == Children(n)[1];
      }
      DeclareRenderable(v, n.init.value, env, e1);
      BareIdentifierRenderable(n.id, e2);
      assert Children(n.(init := Some(init))) == [n.id, init];
    } else {
      assert Resolver.Declare(v, n, env, envs) == (n, e1);
      BareIdentifierRenderable(n.id, e1);
      assert Children(n) == [n.id];
    }
  }

  lemma {:induction false} DeclareAllRenderable(v: Variant, cs: seq<Node>, bound: Node, env: EnvId, envs: Envs)
    requires forall i :: 0 <= i < |cs| ==> cs[i] < bound
    requires Valid(envs) && env < |envs|
    requires forall i :: 0 <= i < |cs| ==> Unanalysed(cs[i]) && Resolver.NamesAreIdentifiers(cs[i])
    ensures var r := Resolver.DeclareAll(v, cs, bound, env, envs); RenderableAll(r.0, r.1)
    decreases bound, 0, |cs|
  {
    if cs != [] {
      var (c, e1) := Resolver.Declare(v, cs[0], env, envs);
      DeclareRenderable(v, cs[0], env, envs);
      var (rest, e2) := Resolver.DeclareAll(v, cs[1..], bound, env, e1);
      DeclareAllRenderable(v, cs[1..], bound, env, e1);
      RenderableGrows(c, e1, e2);
      assert Resolver.DeclareAll(v, cs, bound, env, envs) == ([c] + rest, e2);
      RenderableCons(c, rest, e2);
    }
  }

  /** Pass 2 only writes scopes of the arena into `boundIn`. */
  lemma {:induction false} ResolveRenderable(v: Variant, n: Node, env: EnvId, envs: Envs)
    requires Valid(envs) && env < |envs| && Resolver.Annotated(n, envs) && Renderable(n, envs)
    ensures var r := Resolver.Resolve(v, n, env, envs); Renderable(r.0, r.1)
    decreases n, 1
  {
    match n
    case Identifier(_, _) =>
    case ThisExpression(_) =>
    case FunctionDeclaration(_, _, _, _) => ResolveFunctionRenderable(v, n, env, envs);
    case FunctionExpression(_, _, _, _) => ResolveFunctionRenderable(v, n, env, envs);
    case Property(info, key, value) =>
      assert Children(n)[0] == key && Children(n)[1] == value;
      ResolveRenderable(v, value, env, envs);
      var (value', e1) := Resolver.Resolve(v, value, env, envs);
      RenderableGrows(key, envs, e1);
      assert Children(Property(info, key, value')) == [key, value'];
    case MemberExpression(_, _, _, _) => ResolveMemberRenderable(v, n, env, envs);
    case Program(_, _) => ResolveDefaultRenderable(v, n, env, envs);
    case VariableDeclarator(_, _, _) => ResolveDefaultRenderable(v, n, env, envs);
    case Literal(_) => ResolveDefaultRenderable(v, n, env, envs);
    case Other(_, _, _) => ResolveDefaultRenderable(v, n, env, envs);
  }

  /** The parts of a renderable function are renderable. */
  lemma FunctionPartsRenderable(n: Node, envs: Envs)
    requires IsFunction(n) && Renderable(n, envs)
    ensures FunctionId(n).Some? ==> Renderable(FunctionId(n).value, envs)
    ensures RenderableAll(n.params, envs) && Renderable(n.fnBody, envs)
  {
    var ids := if FunctionId(n).Some? then [FunctionId(n).value] else [];
    assert Children(n) == ids + n.params + [n.fnBody];
    forall i | 0 <= i < |n.params| ensures Renderable(n.params[i], envs) {
      assert n.params[i] == Children(n)[|ids| + i];
    }
    assert n.fnBody == Children(n)[|Children(n)| - 1];
    if FunctionId(n).Some? { assert FunctionId(n).value == Children(n)[0]; }
  }

  lemma BindParamsRenderable(ps: seq<Node>, fe: EnvId, a: Envs, b: Envs)
    requires RenderableAll(ps, a) && |a| <= |b| && fe < |b|
    ensures RenderableAll(Resolver.BindParams(ps, fe), b)
  {
    var qs := Resolver.BindParams(ps, fe);
    forall i | 0 <= i < |qs| ensures Renderable(qs[i], b) {
      RenderableGrows(ps[i], a, b);
      assert Children(qs[i]) == Children(ps[i]);
    }
  }

  lemma {:induction false} ResolveFunctionRenderable(v: Variant, n: Node, env: EnvId, envs: Envs)
    requires Valid(envs) && env < |envs| && Resolver.Annotated(n, envs) && Renderable(n, envs) && IsFunction(n)
    ensures var r := Resolver.Resolve(v, n, env, envs); Renderable(r.0, r.1)
    decreases n, 0
  {
    var fe := n.info.bindings.value;
    FunctionPartsRenderable(n, envs);
    var (body', e1) := Resolver.Resolve(v, n.fnBody, fe, envs);
    ResolveRenderable(v, n.fnBody, fe, envs);
    var r := Resolver.Resolve(v, n, env, envs);
    var ps := Resolver.BindParams(n.params, fe);
    BindParamsRenderable(n.params, fe, envs, r.1);
    var id := FunctionId(n);
    if id.Some? {
      Resolver.AnnotatedGrows(id.value, envs, e1);
      RenderableGrows(id.value, envs, e1);
      var (id', e2) := Resolver.Resolve(v, id.value, fe, e1);
      ResolveRenderable(v, id.value, fe, e1);
      RenderableGrows(body', e1, e2);
      if n.FunctionDeclaration? {
        assert r.0 == FunctionDeclaration(n.info, id', ps, body');
      } else {
        assert r.0 == FunctionExpression(n.info, Some(id'), ps, body');
      }
    } else {
      assert r.0 == FunctionExpression(n.info, None, ps, body');
    }
    RenderableFunction(r.0, r.1);
  }

  lemma {:induction false} ResolveMemberRenderable(v: Variant, n: Node, env: EnvId, envs: Envs)
    requires Valid(envs) && env < |envs| && Resolver.Annotated(n, envs) && Renderable(n, envs) && n.MemberExpression?
    ensures var r := Resolver.Resolve(v, n, env, envs); Renderable(r.0, r.1)
    decreases n, 0
  {
    assert Children(n)[0] == n.obj && Children(n)[1] == n.property;
    var (obj', e1) := Resolver.Resolve(v, n.obj, env, envs);
    ResolveRenderable(v, n.obj, env, envs);
    RenderableGrows(n.property, envs, e1);
    var r := Resolver.Resolve(v, n, env, envs);
    if n.computed {
      Resolver.AnnotatedGrows(n.property, envs, e1);
      var (property', e2) := Resolver.Resolve(v, n.property, env, e1);
      ResolveRenderable(v, n.property, env, e1);
      RenderableGrows(obj', e1, e2);
      assert Children(r.0) == [obj', property'];
    } else {
      assert Children(r.0) == [obj', n.property];
    }
  }

  lemma {:induction false} ResolveDefaultRenderable(v: Variant, n: Node, env: EnvId, envs: Envs)
    requires Valid(envs) && env < |envs| && Resolver.Annotated(n, envs) && Renderable(n, envs)
    requires n.Program? || n.VariableDeclarator? || n.Literal? || n.Other?
    ensures var r := Resolver.Resolve(v, n, env, envs); Renderable(r.0, r.1)
    decreases n, 0
  {
    var (cs, e1) := Resolver.ResolveAll(v, Children(n), n, env, envs);
    ResolveAllRenderable(v, Children(n), n, env, envs);
    assert Children(WithChildren(n, cs)) == cs;
  }

  lemma {:induction false} ResolveAllRenderable(v: Variant, cs: seq<Node>, bound: Node, env: EnvId, envs: Envs)
    requires forall i :: 0 <= i < |cs| ==> cs[i] < bound
    requires Valid(envs) && env < |envs|
    requires forall i :: 0 <= i < |cs| ==> Resolver.Annotated(cs[i], envs) && Renderable(cs[i], envs)
    ensures var r := Resolver.ResolveAll(v, cs, bound, env, envs); RenderableAll(r.0, r.1)
    decreases bound, 0, |cs|
  {
    if cs != [] {
      var (c, e1) := Resolver.Resolve(v, cs[0], env, envs);
      ResolveRenderable(v, cs[0], env, envs);
      Resolver.AnnotatedSeqGrows(cs[1..], envs, e1);
      forall i | 0 <= i < |cs[1..]| ensures Renderable(cs[1..][i], e1) {
        RenderableGrows(cs[1..][i], envs, e1);
      }
      var (rest, e2) := Resolver.ResolveAll(v, cs[1..], bound, env, e1);
      ResolveAllRenderable(v, cs[1..], bound, env, e1);
      RenderableGrows(c, e1, e2);
      RenderableCons(c, rest, e2);
    }
  }

  /**
   * What `performBindingAnalysis` returns for a freshly parsed tree can be
   * rendered: every annotation `toText` reads points into the arena.
   */
  lemma AnalysisRenderable(v: Variant, ast: Node)
    requires Resolver.NamesAreIdentifiers(ast) && Unanalysed(ast)
    ensures var r := Resolver.PerformBindingAnalysis(v, ast); Renderable(r.0, r.1)
  {
    var global := [Env(ast.Uid(), None, map[])];
    var (t1, e1) := Resolver.Declare(v, ast, 0, global);
    DeclareRenderable(v, ast, 0, global);
    var (root, e) := Resolver.Prepare(v, ast);
    assert e == e1;
    if !IsFunction(ast) {
      assert Children(root) == Children(t1);
    }
    ResolveRenderable(v, root, 0, e1);
  }

  /* ---------------- defects of the code as written ---------------- */

  /**
   * Token values go into the markup unescaped: the string literal
   * `'<b>x</b>'` puts a real `b` element into the page, which then shows
   * `'x'` where the literal's own text belongs.
   */
  lemma UnescapedValueMisshown(v: Variant)
    ensures var raw := "'<b>x</b>'";
      var t := Token(String, raw, Range(0, |raw|));
      && TokensOk(raw, [t])
      && Shown(TokenMarkup(v, AsWritten, raw, t), false) == "'x'"
      && Escape(raw) != "'x'"
      && Shows(raw, t.range, TokenMarkup(v, Corrected, raw, t))
  {
    var raw := "'<b>x</b>'";
    var t := Token(String, raw, Range(0, |raw|));
    LiteralTokenOk(raw, t);
    AsWrittenLiteralShown(v, raw, t);
    TagLiteralEscaped(raw);
    TokenMarkupShows(v, raw, t);
  }

  lemma LiteralTokenOk(raw: string, t: Token)
    requires raw == "'<b>x</b>'" && t == Token(String, raw, Range(0, |raw|))
    ensures TokenClass(t.kind).Some? && TokensOk(raw, [t])
  {
    assert [t][0] == t;
    assert raw[0..|raw|] == raw;
  }

  /** As written, the literal's markup is a span around the raw literal, shown as `'x'`. */
  lemma AsWrittenLiteralShown(v: Variant, raw: string, t: Token)
    requires raw == "'<b>x</b>'" && t == Token(String, raw, Range(0, |raw|))
    ensures Shown(TokenMarkup(v, AsWritten, raw, t), false) == "'x'"
  {
    TokenClassSafe(String);
    assert NoAngle("span");
    ElementShown(Quote(v), "span", [("class", "constant")], raw);
    TagLiteralShown(raw);
  }

  /** A string literal holding a `b` element shows as the element's contents between the quotes. */
  lemma TagLiteralShown(raw: string)
    requires raw == "'<b>x</b>'"
    ensures Shown(raw, false) == "'x'"
  {
    var b := Element('"', "b", [], "x");
    assert NoAngle("b");
    ElementShown('"', "b", [], "x");
    assert raw == "'" + b + "'";
    assert NoAngle("'");
    ShownPlain("'");
    ShownPlain("x");
    ShownConcat("'", b, false);
    ShownConcat("'" + b, "'", false);
  }

  /** Escaping the literal turns its first `<` into `&lt;`. */
  lemma TagLiteralEscaped(raw: string)
    requires raw == "'<b>x</b>'"
    ensures Escape(raw) != "'x'"
  {
    EscapeConcat("'", raw[1..]);
    assert raw == "'" + raw[1..];
    assert Escape(raw[1..]) == "&lt;" + Escape(raw[2..]);
    assert Escape(raw)[1] == '&';
  }

  /**
   * htmlconverter.js gives a token type it does not list the markup of the
   * token before it: in "x = true" the slice of `true` shows "=".
   */
  lemma ReusedMarkupMisshown()
    ensures var ts := [Token(Punctuator, "=", Range(2, 3)), Token(Unlisted("Boolean"), "true", Range(4, 8))];
      && TokensOk("x = true", ts)
      && var ss := TokenSlices(Resolver.Current, AsWritten, "x = true", ts);
      && |ss| == 2 && ss[1].range == Range(4, 8)
      && !Faithful("x = true", ss[1])
      && PoolOk("x = true", TokenSlices(Resolver.Current, Corrected, "x = true", ts))
  {
    var raw := "x = true";
    var t0 := Token(Punctuator, "=", Range(2, 3));
    var t1 := Token(Unlisted("Boolean"), "true", Range(4, 8));
    var ts := [t0, t1];
    ExampleTokensOk();
    var m := TokenMarkup(Resolver.Current, AsWritten, raw, t0);
    ReusedSlices(raw, t0, t1);
    PunctuatorShown();
    assert Shown(m, false) == "=";
    EscapeLength(raw[4..8]);
    CollectOk(Resolver.Current, raw, ts, "");
  }

  lemma ExampleTokensOk()
    ensures TokensOk("x = true", [Token(Punctuator, "=", Range(2, 3)), Token(Unlisted("Boolean"), "true", Range(4, 8))])
  {
    var raw := "x = true";
    assert raw[2..3] == "=";
  }

  /** htmlconverter.js gives the unlisted token the markup of the listed one before it. */
  lemma ReusedSlices(raw: string, t0: Token, t1: Token)
    requires t0.kind == Punctuator && t1.kind.Unlisted?
    ensures var m := TokenMarkup(Resolver.Current, AsWritten, raw, t0);
      TokenSlices(Resolver.Current, AsWritten, raw, [t0, t1]) == [Slice(t0.range, m), Slice(t1.range, m)]
  {
    var m := TokenMarkup(Resolver.Current, AsWritten, raw, t0);
    assert [t0, t1][1..] == [t1] && [t1][1..] == [];
    assert Collect(Resolver.Current, AsWritten, raw, [t1], m) == [Slice(t1.range, m)];
  }

  lemma PunctuatorShown()
    ensures Shown(TokenMarkup(Resolver.Current, AsWritten, "x = true", Token(Punctuator, "=", Range(2, 3))), false) == "="
  {
    TokenClassSafe(Punctuator);
    assert NoAngle("span");
    ElementShown(Quote(Resolver.Current), "span", [("class", "punctuator")], "=");
    assert Shown("=", false) == "=";
  }
}
