/** `canonicalJson`: JSON text of a value whose object keys were sorted first, and the theorem that
    the text determines the value up to key order and up to the one key that sorting loses. */
module JsonText {
  import opened ByteStrings

  predicate IsNumChar(c: char) {
    '0' <= c <= '9' || c == '-' || c == '+' || c == '.' || c == 'e'
  }

  predicate IsNumChars(s: string) { forall i :: 0 <= i < |s| ==> IsNumChar(s[i]) }

  predicate IsNumText(s: string) {
    && |s| > 0 && ('0' <= s[0] <= '9' || s[0] == '-')
    && IsNumChars(s)
  }

  /** Text made of the characters of a number. Which texts JavaScript prints for its numbers is a
      parameter, `printed`, of the laws that need it. */
  type NumText = s: string | IsNumText(s) witness "0"

  datatype Json =
    | Null
    | Bool(b: bool)
    | Num(text: NumText)
    | Str(s: string)
    | Arr(elems: seq<Json>)
    | Obj(fields: seq<Field>)

  /** Fields are listed in insertion order. */
  datatype Field = Field(key: string, value: Json)

  function TextOrNull(t: Option<string>): Json {
    match t case None => Null case Some(s) => Str(s)
  }

  /** The keys of every object are distinct. */
  ghost predicate Valid(v: Json) {
    match v
    case Arr(es) => forall i :: 0 <= i < |es| ==> Valid(es[i])
    case Obj(fs) =>
      && (forall i :: 0 <= i < |fs| ==> Valid(fs[i].value))
      && (forall i, j :: 0 <= i < j < |fs| ==> fs[i].key != fs[j].key)
    case _ => true
  }

  /** Every number in the value is one of the texts that `printed` admits. */
  ghost predicate NumbersIn(printed: string -> bool, v: Json) {
    match v
    case Num(text) => printed(text)
    case Arr(es) => forall i :: 0 <= i < |es| ==> NumbersIn(printed, es[i])
    case Obj(fs) => forall i :: 0 <= i < |fs| ==> NumbersIn(printed, fs[i].value)
    case _ => true
  }

  // ---------- JSON.stringify ----------

  predicate IsPlain(c: char) { c >= ' ' && c != '"' && c != '\\' }

  /** What follows the backslash. */
  function EscapeTail(c: char): (s: string)
    requires !IsPlain(c)
    ensures |s| == 1 || |s| == 5
    ensures s[0] == 'u' <==> |s| == 5
  {
    if c == '"' then "\"" else if c == '\\' then "\\"
    else if c == '\U{8}' then "b" else if c == '\U{C}' then "f"
    else if c == '\n' then "n" else if c == '\r' then "r" else if c == '\t' then "t"
    else ['u', '0', '0', DigitChar(c as int / 16), DigitChar(c as int % 16)]
  }

  function Escape(c: char): (s: string)
    ensures |s| > 0
  {
    if IsPlain(c) then [c] else ['\\'] + EscapeTail(c)
  }

  function EscapeAll(s: string): string {
    if |s| == 0 then "\"" else Escape(s[0]) + EscapeAll(s[1..])
  }

  /** `JSON.stringify` without white space. The closing bracket belongs to the list text. */
  function Text(v: Json): (s: string)
    ensures |s| > 0
  {
    match v
    case Null => "null"
    case Bool(b) => if b then "true" else "false"
    case Num(text) => text
    case Str(s) => "\"" + EscapeAll(s)
    case Arr(es) => "[" + ElemsText(es, true)
    case Obj(fs) => "{" + FieldsText(fs, true)
  }

  function Comma(first: bool): string { if first then "" else "," }

  function ElemsText(es: seq<Json>, first: bool): (s: string)
    ensures |s| > 0
  {
    if |es| == 0 then "]" else Comma(first) + Text(es[0]) + ElemsText(es[1..], false)
  }

  function FieldsText(fs: seq<Field>, first: bool): (s: string)
    ensures |s| > 0
  {
    if |fs| == 0 then "}"
    else Comma(first) + "\"" + EscapeAll(fs[0].key) + ":" + Text(fs[0].value) + FieldsText(fs[1..], false)
  }

  // ---------- Sorting ----------

  /** Assigning this key of an ordinary object sets its prototype instead of a property. */
  const PROTO: string := "__proto__"

  predicate LexLess(a: string, b: string) {
    |b| > 0 && (|a| == 0 || a[0] < b[0] || (a[0] == b[0] && LexLess(a[1..], b[1..])))
  }

  /** An array index in canonical form, below 2**32 - 1. */
  predicate IsIndex(k: string) {
    && 0 < |k| <= 10 && (forall i :: 0 <= i < |k| ==> '0' <= k[i] <= '9')
    && (|k| == 1 || k[0] != '0')
    && (|k| == 10 ==> !LexLess("4294967294", k))
  }

  /** The order in which an object filled in sorted order lists its keys: array indices by value,
      then the others lexicographically. */
  predicate KeyLess(a: string, b: string) {
    if IsIndex(a) != IsIndex(b) then IsIndex(a)
    else if IsIndex(a) && |a| != |b| then |a| < |b|
    else LexLess(a, b)
  }

  function Insert(f: Field, fs: seq<Field>): seq<Field> {
    if |fs| == 0 || KeyLess(f.key, fs[0].key) then [f] + fs else [fs[0]] + Insert(f, fs[1..])
  }

  /** `sortDeep`. */
  function SortDeep(v: Json): Json {
    match v
    case Arr(es) => Arr(SortElems(es))
    case Obj(fs) => Obj(SortFields(fs))
    case _ => v
  }

  function SortElems(es: seq<Json>): (r: seq<Json>)
    ensures |r| == |es|
    ensures forall i :: 0 <= i < |es| ==> r[i] == SortDeep(es[i])
  {
    if |es| == 0 then [] else [SortDeep(es[0])] + SortElems(es[1..])
  }

  function SortFields(fs: seq<Field>): seq<Field> {
    if |fs| == 0 then []
    else if fs[0].key == PROTO then SortFields(fs[1..])
    else Insert(Field(fs[0].key, SortDeep(fs[0].value)), SortFields(fs[1..]))
  }

  function CanonicalJson(v: Json): string {
    Text(SortDeep(v))
  }

  // ---------- The text can be read in one way only ----------

  lemma ConsEq<T>(a: T, x: seq<T>, b: T, y: seq<T>)
    requires [a] + x == [b] + y
    ensures a == b && x == y
  {
    SplitConcat([a], x, [b], y);
  }

  lemma Assoc<T>(a: seq<T>, b: seq<T>, c: seq<T>)
    ensures a + b + c == a + (b + c)
  {
  }

  lemma EscapeReads(c: char, x: string, d: char, y: string)
    requires Escape(c) + x == Escape(d) + y
    ensures c == d && x == y
  {
    assert (Escape(c) + x)[0] == Escape(c)[0] && (Escape(d) + y)[0] == Escape(d)[0];
    if IsPlain(c) || IsPlain(d) {
      ConsEq(c, x, d, y);
    } else {
      var s, t := EscapeTail(c), EscapeTail(d);
      assert (Escape(c) + x)[1] == s[0] && (Escape(d) + y)[1] == t[0];
      SplitConcat(Escape(c), x, Escape(d), y);
      SplitConcat(['\\'], s, ['\\'], t);
      if |s| == 5 {
        ControlCode(c);
        ControlCode(d);
      }
    }
  }

  lemma ControlCode(c: char)
    requires !IsPlain(c) && |EscapeTail(c)| == 5
    ensures c as int < 256
    ensures c as int == DigitValue(EscapeTail(c)[3]) * 16 + DigitValue(EscapeTail(c)[4])
  {
  }

  lemma {:induction false} EscapeAllReads(s: string, x: string, t: string, y: string)
    requires EscapeAll(s) + x == EscapeAll(t) + y
    ensures s == t && x == y
    decreases |s|
  {
    QuoteStops(s, x);
    QuoteStops(t, y);
    if |s| == 0 {
      ConsEq('"', x, '"', y);
    } else {
      Assoc(Escape(s[0]), EscapeAll(s[1..]), x);
      Assoc(Escape(t[0]), EscapeAll(t[1..]), y);
      EscapeReads(s[0], EscapeAll(s[1..]) + x, t[0], EscapeAll(t[1..]) + y);
      EscapeAllReads(s[1..], x, t[1..], y);
      assert s == [s[0]] + s[1..] && t == [t[0]] + t[1..];
    }
  }

  /** Only the end of a string begins with a quotation mark. */
  lemma QuoteStops(s: string, x: string)
    ensures |EscapeAll(s) + x| > 0 && ((EscapeAll(s) + x)[0] == '"' <==> |s| == 0)
  {
  }

  /** What may follow a value. */
  predicate Ends(r: string) { |r| == 0 || r[0] == ',' || r[0] == ']' || r[0] == '}' }

  lemma CharAfter(a: string, x: string, b: string, y: string)
    requires a + x == b + y && |a| < |b|
    ensures |x| > 0 && x[0] == b[|a|]
  {
    assert (a + x)[|a|] == (b + y)[|a|];
  }

  lemma NumNotLonger(a: string, x: string, b: string, y: string)
    requires IsNumChars(b) && Ends(x) && a + x == b + y
    ensures |b| <= |a|
  {
    if |a| < |b| {
      CharAfter(a, x, b, y);
    }
  }

  lemma NumReads(a: string, x: string, b: string, y: string)
    requires IsNumChars(a) && IsNumChars(b) && Ends(x) && Ends(y) && a + x == b + y
    ensures a == b && x == y
  {
    NumNotLonger(a, x, b, y);
    NumNotLonger(b, y, a, x);
    SplitConcat(a, x, b, y);
  }

  /** The first character tells the kinds of value apart. */
  function Kind(c: char): nat {
    if c == 'n' then 0 else if c == 't' then 1 else if c == 'f' then 2 else if c == '"' then 3
    else if c == '[' then 4 else if c == '{' then 5 else 6
  }

  function KindOf(v: Json): nat {
    match v
    case Null => 0
    case Bool(b) => if b then 1 else 2
    case Str(_) => 3
    case Arr(_) => 4
    case Obj(_) => 5
    case Num(_) => 6
  }

  lemma TextKind(v: Json, x: string)
    ensures |Text(v) + x| > 0 && (Text(v) + x)[0] == Text(v)[0] && Kind(Text(v)[0]) == KindOf(v)
    ensures Text(v)[0] != ']' && Text(v)[0] != '}' && Text(v)[0] != ','
  {
  }

  /** Unique reading: no value's text continued by a delimiter is another's. */
  lemma {:induction false} TextReads(v: Json, x: string, w: Json, y: string)
    requires Text(v) + x == Text(w) + y && Ends(x) && Ends(y)
    ensures v == w && x == y
    decreases v
  {
    TextKind(v, x);
    TextKind(w, y);
    match v
    case Null => SplitConcat("null", x, "null", y);
    case Bool(b) => SplitConcat(Text(v), x, Text(w), y);
    case Num(text) => NumReads(text, x, w.text, y);
    case Str(s) =>
      Tail('"', EscapeAll(s), x, '"', EscapeAll(w.s), y);
      EscapeAllReads(s, x, w.s, y);
    case Arr(es) =>
      Tail('[', ElemsText(es, true), x, '[', ElemsText(w.elems, true), y);
      ElemsRead(es, x, w.elems, y, true);
    case Obj(fs) =>
      Tail('{', FieldsText(fs, true), x, '{', FieldsText(w.fields, true), y);
      FieldsRead(fs, x, w.fields, y, true);
  }

  lemma Tail(a: char, s: string, x: string, b: char, t: string, y: string)
    requires [a] + s + x == [b] + t + y
    ensures a == b && s + x == t + y
  {
    assert [a] + s + x == [a] + (s + x) && [b] + t + y == [b] + (t + y);
    ConsEq(a, s + x, b, t + y);
  }

  /** The text of a list of elements, seen from its first character. */
  lemma ElemsShape(es: seq<Json>, x: string, first: bool)
    ensures |ElemsText(es, first) + x| > 0
    ensures (ElemsText(es, first) + x)[0] == ']' <==> |es| == 0
    ensures !first ==> Ends(ElemsText(es, first) + x)
  {
    if |es| > 0 {
      TextKind(es[0], "");
      assert ElemsText(es, first)[0] == (if first then Text(es[0])[0] else ',');
    }
  }

  lemma ElemsParts(es: seq<Json>, x: string, first: bool)
    requires |es| > 0
    ensures ElemsText(es, first) + x == Comma(first) + (Text(es[0]) + (ElemsText(es[1..], false) + x))
  {
    Assoc(Comma(first) + Text(es[0]), ElemsText(es[1..], false), x);
    Assoc(Comma(first), Text(es[0]), ElemsText(es[1..], false) + x);
  }

  lemma {:induction false} ElemsRead(es: seq<Json>, x: string, gs: seq<Json>, y: string, first: bool)
    requires ElemsText(es, first) + x == ElemsText(gs, first) + y
    ensures es == gs && x == y
    decreases es
  {
    ElemsShape(es, x, first);
    ElemsShape(gs, y, first);
    if |es| == 0 {
      ConsEq(']', x, ']', y);
    } else {
      ElemsParts(es, x, first);
      ElemsParts(gs, y, first);
      var u, v := ElemsText(es[1..], false) + x, ElemsText(gs[1..], false) + y;
      SplitConcat(Comma(first), Text(es[0]) + u, Comma(first), Text(gs[0]) + v);
      ElemsShape(es[1..], x, false);
      ElemsShape(gs[1..], y, false);
      TextReads(es[0], u, gs[0], v);
      ElemsRead(es[1..], x, gs[1..], y, false);
      assert es == [es[0]] + es[1..] && gs == [gs[0]] + gs[1..];
    }
  }

  lemma FieldsShape(fs: seq<Field>, x: string, first: bool)
    ensures |FieldsText(fs, first) + x| > 0
    ensures (FieldsText(fs, first) + x)[0] == '}' <==> |fs| == 0
    ensures !first ==> Ends(FieldsText(fs, first) + x)
  {
    if |fs| > 0 {
      assert FieldsText(fs, first)[0] == (if first then '"' else ',');
    }
  }

  lemma FieldsParts(fs: seq<Field>, x: string, first: bool)
    requires |fs| > 0
    ensures FieldsText(fs, first) + x == Comma(first) + "\""
      + (EscapeAll(fs[0].key) + (":" + (Text(fs[0].value) + (FieldsText(fs[1..], false) + x))))
  {
    var open, key, value, rest :=
      Comma(first) + "\"", EscapeAll(fs[0].key), Text(fs[0].value), FieldsText(fs[1..], false);
    Assoc(open + key + ":" + value, rest, x);
    Assoc(open + key + ":", value, rest + x);
    Assoc(open + key, ":", value + (rest + x));
    Assoc(open, key, ":" + (value + (rest + x)));
  }

  lemma {:induction false} FieldsRead(fs: seq<Field>, x: string, gs: seq<Field>, y: string, first: bool)
    requires FieldsText(fs, first) + x == FieldsText(gs, first) + y
    ensures fs == gs && x == y
    decreases fs
  {
    FieldsShape(fs, x, first);
    FieldsShape(gs, y, first);
    if |fs| == 0 {
      ConsEq('}', x, '}', y);
    } else {
      FieldsParts(fs, x, first);
      FieldsParts(gs, y, first);
      var u, v := FieldsText(fs[1..], false) + x, FieldsText(gs[1..], false) + y;
      var s, t := ":" + (Text(fs[0].value) + u), ":" + (Text(gs[0].value) + v);
      SplitConcat(Comma(first) + "\"", EscapeAll(fs[0].key) + s, Comma(first) + "\"", EscapeAll(gs[0].key) + t);
      EscapeAllReads(fs[0].key, s, gs[0].key, t);
      ConsEq(':', Text(fs[0].value) + u, ':', Text(gs[0].value) + v);
      FieldsShape(fs[1..], x, false);
      FieldsShape(gs[1..], y, false);
      TextReads(fs[0].value, u, gs[0].value, v);
      FieldsRead(fs[1..], x, gs[1..], y, false);
      assert fs == [fs[0]] + fs[1..] && gs == [gs[0]] + gs[1..];
    }
  }

  lemma TextInjective(v: Json, w: Json)
    requires Text(v) == Text(w)
    ensures v == w
  {
    assert Text(v) + "" == Text(v) && Text(w) + "" == Text(w);
    TextReads(v, "", w, "");
  }

  // ---------- The order of keys ----------

  lemma {:induction false} LexTrichotomy(a: string, b: string)
    ensures !LexLess(a, a)
    ensures a != b ==> LexLess(a, b) || LexLess(b, a)
    decreases |a|
  {
    if |a| > 0 && |b| > 0 {
      LexTrichotomy(a[1..], b[1..]);
      assert a == [a[0]] + a[1..] && b == [b[0]] + b[1..];
    } else if |a| > 0 {
      LexTrichotomy(a[1..], a[1..]);
    }
  }

  lemma {:induction false} LexTransitive(a: string, b: string, c: string)
    requires LexLess(a, b) && LexLess(b, c)
    ensures LexLess(a, c)
  {
    if |a| > 0 && a[0] == b[0] == c[0] {
      LexTransitive(a[1..], b[1..], c[1..]);
    }
  }

  lemma KeyTrichotomy(a: string, b: string)
    ensures !KeyLess(a, a)
    ensures a != b ==> KeyLess(a, b) || KeyLess(b, a)
  {
    LexTrichotomy(a, b);
  }

  lemma KeyTransitive(a: string, b: string, c: string)
    requires KeyLess(a, b) && KeyLess(b, c)
    ensures KeyLess(a, c)
  {
    if LexLess(a, b) && LexLess(b, c) {
      LexTransitive(a, b, c);
    }
  }

  // ---------- Sorted field lists ----------

  ghost predicate Sorted(fs: seq<Field>) {
    forall i, j :: 0 <= i < j < |fs| ==> KeyLess(fs[i].key, fs[j].key)
  }

  lemma {:induction false} InsertSorted(f: Field, fs: seq<Field>)
    requires Sorted(fs) && forall i :: 0 <= i < |fs| ==> fs[i].key != f.key
    ensures Sorted(Insert(f, fs))
    ensures forall g :: g in Insert(f, fs) <==> g == f || g in fs
  {
    var r := Insert(f, fs);
    if |fs| == 0 {
    } else if KeyLess(f.key, fs[0].key) {
      forall j | 0 < j < |r| ensures KeyLess(f.key, r[j].key) {
        assert r[j] == fs[j - 1];
        if j > 1 {
          KeyTransitive(f.key, fs[0].key, fs[j - 1].key);
        }
      }
      assert forall i :: 0 < i < |r| ==> r[i] == fs[i - 1];
    } else {
      InsertSorted(f, fs[1..]);
      var rest := Insert(f, fs[1..]);
      forall j | 0 < j < |r| ensures KeyLess(fs[0].key, r[j].key) {
        assert r[j] == rest[j - 1] && rest[j - 1] in rest;
        KeyTrichotomy(f.key, fs[0].key);
        if rest[j - 1] != f {
          var k :| 0 <= k < |fs[1..]| && fs[1..][k] == rest[j - 1];
          assert fs[k + 1] == rest[j - 1];
        }
      }
      assert forall i :: 0 < i < |r| ==> r[i] == rest[i - 1];
      assert fs == [fs[0]] + fs[1..];
    }
  }

  /** `f` is a visible field of `fs` with its value sorted. */
  ghost predicate SortedFieldOf(fs: seq<Field>, f: Field, i: int) {
    0 <= i < |fs| && fs[i].key != PROTO && f == Field(fs[i].key, SortDeep(fs[i].value))
  }

  ghost predicate DistinctKeys(fs: seq<Field>) {
    forall i, j :: 0 <= i < j < |fs| ==> fs[i].key != fs[j].key
  }

  /** Sorting lists exactly the visible fields, in key order. */
  lemma {:induction false} SortFieldsSpec(fs: seq<Field>)
    requires DistinctKeys(fs)
    ensures Sorted(SortFields(fs))
    ensures forall f :: f in SortFields(fs) <==> exists i :: SortedFieldOf(fs, f, i)
  {
    if |fs| > 0 {
      var rest := SortFields(fs[1..]);
      SortFieldsSpec(fs[1..]);
      forall f, i | SortedFieldOf(fs[1..], f, i) ensures SortedFieldOf(fs, f, i + 1) {
      }
      forall f, i | SortedFieldOf(fs, f, i) && i > 0 ensures SortedFieldOf(fs[1..], f, i - 1) {
      }
      if fs[0].key != PROTO {
        var head := Field(fs[0].key, SortDeep(fs[0].value));
        forall k | 0 <= k < |rest| ensures rest[k].key != head.key {
          assert rest[k] in rest;
          var i :| SortedFieldOf(fs[1..], rest[k], i);
          assert fs[i + 1].key == rest[k].key;
        }
        InsertSorted(head, rest);
        assert SortedFieldOf(fs, head, 0);
      }
    }
  }

  /** A sorted list is determined by its members. */
  lemma {:induction false} SortedUnique(s: seq<Field>, t: seq<Field>)
    requires Sorted(s) && Sorted(t) && forall f :: f in s <==> f in t
    ensures s == t
  {
    HeadIsMember(t);
    if |s| > 0 {
      assert s[0] in t;
      var j :| 0 <= j < |t| && t[j] == s[0];
      var i :| 0 <= i < |s| && s[i] == t[0] by { assert t[0] in s; }
      if i > 0 && j > 0 {
        KeyTransitive(s[0].key, s[i].key, s[0].key);
        KeyTrichotomy(s[0].key, s[0].key);
      }
      assert s[0] == t[0];
      HeadNotInTail(s);
      HeadNotInTail(t);
      assert forall f :: f in s[1..] <==> f in t[1..];
      SortedUnique(s[1..], t[1..]);
      assert s == [s[0]] + s[1..] && t == [t[0]] + t[1..];
    }
  }

  lemma HeadIsMember(s: seq<Field>)
    ensures |s| > 0 ==> s[0] in s
  {
  }

  lemma HeadNotInTail(s: seq<Field>)
    requires |s| > 0 && Sorted(s)
    ensures Sorted(s[1..])
    ensures forall f :: f in s[1..] <==> f in s && f != s[0]
  {
    KeyTrichotomy(s[0].key, s[0].key);
    assert forall i :: 0 <= i < |s| - 1 ==> s[1..][i] == s[i + 1];
    assert s == [s[0]] + s[1..];
  }

  // ---------- Equality up to key order ----------

  /** The `i`-th field of `fs` and the `j`-th of `gs` have one visible key. */
  ghost predicate Matches(fs: seq<Field>, i: int, gs: seq<Field>, j: int) {
    0 <= i < |fs| && 0 <= j < |gs| && fs[i].key == gs[j].key != PROTO
  }

  /** The values are equal up to the order of object keys and up to fields named `__proto__`. */
  ghost predicate SameVisible(v: Json, w: Json) {
    match v
    case Arr(es) => w.Arr? && |es| == |w.elems| && forall i :: 0 <= i < |es| ==> SameVisible(es[i], w.elems[i])
    case Obj(fs) =>
      && w.Obj?
      && (forall i :: 0 <= i < |fs| && fs[i].key != PROTO ==> exists j :: Matches(fs, i, w.fields, j))
      && (forall j :: 0 <= j < |w.fields| && w.fields[j].key != PROTO ==> exists i :: Matches(fs, i, w.fields, j))
      && (forall i, j :: Matches(fs, i, w.fields, j) ==> SameVisible(fs[i].value, w.fields[j].value))
    case _ => v == w
  }

  /** What objects that are alike hold under one key at one place is alike. */
  lemma FieldSame(fs: seq<Field>, gs: seq<Field>, i: nat)
    requires SameVisible(Obj(fs), Obj(gs)) && i < |fs| == |gs| && fs[i].key == gs[i].key != PROTO
    ensures SameVisible(fs[i].value, gs[i].value)
  {
    assert Matches(fs, i, gs, i);
  }

  /** Objects with the same keys in the same places and the same values are the same. */
  lemma PointwiseSame(fs: seq<Field>, gs: seq<Field>)
    requires |fs| == |gs| && DistinctKeys(fs)
    requires forall i :: 0 <= i < |fs| ==> fs[i].key == gs[i].key && SameVisible(fs[i].value, gs[i].value)
    ensures SameVisible(Obj(fs), Obj(gs))
  {
    forall i | 0 <= i < |fs| && fs[i].key != PROTO ensures Matches(fs, i, gs, i) {
    }
    forall i, j | Matches(fs, i, gs, j) ensures i == j {
      assert fs[j].key == gs[j].key;
    }
  }

  lemma {:induction false} SameSortsAlike(v: Json, w: Json)
    requires Valid(v) && Valid(w) && SameVisible(v, w)
    ensures SortDeep(v) == SortDeep(w)
    decreases v
  {
    match v
    case Arr(es) =>
      forall i | 0 <= i < |es| ensures SortDeep(es[i]) == SortDeep(w.elems[i]) {
        SameSortsAlike(es[i], w.elems[i]);
      }
      assert SortElems(es) == SortElems(w.elems);
    case Obj(fs) =>
      var gs := w.fields;
      SortFieldsSpec(fs);
      SortFieldsSpec(gs);
      forall i, j | Matches(fs, i, gs, j) ensures SortDeep(fs[i].value) == SortDeep(gs[j].value) {
        SameSortsAlike(fs[i].value, gs[j].value);
      }
      forall f ensures f in SortFields(fs) <==> f in SortFields(gs) {
        if i :| SortedFieldOf(fs, f, i) {
          var j :| Matches(fs, i, gs, j);
          assert SortedFieldOf(gs, f, j);
        }
        if j :| SortedFieldOf(gs, f, j) {
          var i :| Matches(fs, i, gs, j);
          assert SortedFieldOf(fs, f, i);
        }
      }
      SortedUnique(SortFields(fs), SortFields(gs));
    case _ =>
  }

  lemma {:induction false} SortAlikeSame(v: Json, w: Json)
    requires Valid(v) && Valid(w) && SortDeep(v) == SortDeep(w)
    ensures SameVisible(v, w)
    decreases v
  {
    match v
    case Arr(es) =>
      forall i | 0 <= i < |es| ensures SameVisible(es[i], w.elems[i]) {
        assert SortElems(es)[i] == SortElems(w.elems)[i];
        SortAlikeSame(es[i], w.elems[i]);
      }
    case Obj(fs) =>
      var gs := w.fields;
      SortFieldsSpec(fs);
      SortFieldsSpec(gs);
      forall i | 0 <= i < |fs| && fs[i].key != PROTO ensures exists j :: Matches(fs, i, gs, j) {
        var j := Counterpart(fs, gs, i);
      }
      forall j | 0 <= j < |gs| && gs[j].key != PROTO ensures exists i :: Matches(fs, i, gs, j) {
        var i := Counterpart(gs, fs, j);
        assert Matches(fs, i, gs, j);
      }
      forall i, j | Matches(fs, i, gs, j) ensures SameVisible(fs[i].value, gs[j].value) {
        var j' := Counterpart(fs, gs, i);
        assert j' == j;
        SortAlikeSame(fs[i].value, gs[j].value);
      }
    case _ =>
  }

  /** Where sorted lists coincide, a visible field has a counterpart with the same sorted value. */
  lemma Counterpart(fs: seq<Field>, gs: seq<Field>, i: nat) returns (j: nat)
    requires DistinctKeys(fs) && DistinctKeys(gs) && SortFields(fs) == SortFields(gs)
    requires i < |fs| && fs[i].key != PROTO
    ensures Matches(fs, i, gs, j) && SortDeep(fs[i].value) == SortDeep(gs[j].value)
  {
    SortFieldsSpec(fs);
    SortFieldsSpec(gs);
    var f := Field(fs[i].key, SortDeep(fs[i].value));
    assert SortedFieldOf(fs, f, i);
    assert f in SortFields(gs);
    j :| SortedFieldOf(gs, f, j);
  }

  /** Canonical text is equal exactly when the values are equal up to key order, fields named
      `__proto__` aside. */
  lemma CanonicalIff(v: Json, w: Json)
    requires Valid(v) && Valid(w)
    ensures CanonicalJson(v) == CanonicalJson(w) <==> SameVisible(v, w)
  {
    if CanonicalJson(v) == CanonicalJson(w) {
      TextInjective(SortDeep(v), SortDeep(w));
      SortAlikeSame(v, w);
    }
    if SameVisible(v, w) {
      SameSortsAlike(v, w);
    }
  }

  /** Keys that are array indices come first and by value, as JavaScript lists them: `"10"` before
      `"9"` in the input is `"9"` before `"10"` in the text. */
  lemma IndexKeysByValue(x: Json, y: Json)
    ensures SortFields([Field("10", x), Field("9", y)]) == [Field("9", SortDeep(y)), Field("10", SortDeep(x))]
  {
    assert IsIndex("10") && IsIndex("9");
    var f, g := Field("10", SortDeep(x)), Field("9", SortDeep(y));
    assert [Field("10", x), Field("9", y)][1..] == [Field("9", y)] && [Field("9", y)][1..] == [];
    assert SortFields([Field("9", y)]) == Insert(g, []) == [g];
    assert KeyLess(g.key, f.key) && !KeyLess(f.key, g.key);
    assert [g][1..] == [];
    assert Insert(f, [g]) == [g] + Insert(f, []);
  }

  /** The exception is real: a `__proto__` field leaves no trace in the text. */
  lemma ProtoIsInvisible(x: Json)
    ensures CanonicalJson(Obj([Field(PROTO, x)])) == CanonicalJson(Obj([])) == "{}"
  {
    assert [Field(PROTO, x)][1..] == [];
    assert SortFields([Field(PROTO, x)]) == [];
    assert Text(Obj([])) == "{" + FieldsText([], true) == "{}";
  }
}
