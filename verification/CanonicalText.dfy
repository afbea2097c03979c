/** The canonical text, read off: the order in which an object's keys are listed, how values are joined
    and spelt, and an object's text from its sorted fields. */
module CanonicalText {
  import opened ByteStrings
  import opened JsonText

  // ---------- Code-point order ----------

  /** At `k` the strings part: `a` ends there, or has the smaller character. */
  predicate PartsAt(a: string, b: string, k: nat) {
    && k <= |a| && k < |b| && a[..k] == b[..k]
    && (k == |a| || a[k] < b[k])
  }

  /** `a < b` by code points. */
  ghost predicate Before(a: string, b: string) {
    exists k :: PartsAt(a, b, k)
  }

  lemma {:induction false} LexIsBefore(a: string, b: string)
    ensures LexLess(a, b) <==> Before(a, b)
  {
    if |a| == 0 && |b| > 0 {
      assert PartsAt(a, b, 0);
    } else if |a| > 0 && |b| > 0 && a[0] == b[0] {
      LexIsBefore(a[1..], b[1..]);
      if k: nat :| PartsAt(a[1..], b[1..], k) {
        PartsLater(a, b, k);
      }
      if k: nat :| PartsAt(a, b, k) {
        PartsEarlier(a, b, k);
      }
    } else if |a| > 0 && |b| > 0 {
      assert a[0] < b[0] ==> PartsAt(a, b, 0);
      if k: nat :| PartsAt(a, b, k) {
        assert k > 0 ==> a[..k][0] == b[..k][0];
      }
    }
  }

  lemma PartsLater(a: string, b: string, k: nat)
    requires |a| > 0 && |b| > 0 && a[0] == b[0] && PartsAt(a[1..], b[1..], k)
    ensures PartsAt(a, b, k + 1)
  {
    assert a[..k + 1] == [a[0]] + a[1..][..k] && b[..k + 1] == [b[0]] + b[1..][..k];
  }

  lemma PartsEarlier(a: string, b: string, k: nat)
    requires |a| > 0 && |b| > 0 && a[0] == b[0] && PartsAt(a, b, k)
    ensures k > 0 && PartsAt(a[1..], b[1..], k - 1)
  {
    assert a[1..][..k - 1] == a[..k][1..] && b[1..][..k - 1] == b[..k][1..];
  }

  // ---------- Array indices ----------

  predicate AllDigits(k: string) { forall i :: 0 <= i < |k| ==> '0' <= k[i] <= '9' }

  function Numeral(k: string): (n: nat)
    requires AllDigits(k)
  {
    if |k| == 0 then 0 else Numeral(k[..|k| - 1]) * 10 + (k[|k| - 1] as int - '0' as int)
  }

  /** The decimal text of a number below `2**32 - 1`. */
  predicate IsArrayIndex(k: string) {
    |k| > 0 && AllDigits(k) && (|k| > 1 ==> k[0] != '0') && Numeral(k) < 4294967295
  }

  lemma {:induction false} NumeralBound(k: string)
    requires AllDigits(k)
    ensures Numeral(k) < Pow(10, |k|)
    ensures |k| > 0 && k[0] != '0' ==> Numeral(k) >= Pow(10, |k| - 1)
  {
    if |k| > 0 {
      NumeralBound(k[..|k| - 1]);
    }
  }

  lemma ShiftDigits(d: int, p: nat, m: nat, c: int)
    ensures (d * p + m) * 10 + c == d * (10 * p) + (m * 10 + c)
  {
  }

  /** Taking the first digit off. */
  lemma {:induction false} NumeralHead(k: string)
    requires |k| > 0 && AllDigits(k)
    ensures Numeral(k) == (k[0] as int - '0' as int) * Pow(10, |k| - 1) + Numeral(k[1..])
  {
    if |k| > 1 {
      var init, d, c := k[..|k| - 1], k[0] as int - '0' as int, k[|k| - 1] as int - '0' as int;
      NumeralHead(init);
      assert init[1..] == k[1..][..|k| - 2];
      ShiftDigits(d, Pow(10, |k| - 2), Numeral(init[1..]), c);
    } else {
      assert k[..0] == "" && k[1..] == "";
    }
  }

  lemma Product(d: int, p: nat)
    requires d >= 0
    ensures d * p >= 0
  {
  }

  lemma Expand(x: int, d: int, p: nat)
    ensures (x + 1 + d) * p == x * p + p + d * p
  {
  }

  lemma HeadDecides(x: int, y: int, p: nat, a: nat, b: nat)
    requires x < y && a < p
    ensures x * p + a < y * p + b
  {
    Product(y - x - 1, p);
    Expand(x, y - x - 1, p);
  }

  /** For digit strings of one length the order of texts is that of numbers. */
  lemma {:induction false} LexIsNumeric(a: string, b: string)
    requires |a| == |b| && AllDigits(a) && AllDigits(b)
    ensures LexLess(a, b) <==> Numeral(a) < Numeral(b)
  {
    if |a| > 0 {
      NumeralHead(a);
      NumeralHead(b);
      NumeralBound(a[1..]);
      NumeralBound(b[1..]);
      var p, x, y := Pow(10, |a| - 1), a[0] as int - '0' as int, b[0] as int - '0' as int;
      if x < y {
        HeadDecides(x, y, p, Numeral(a[1..]), Numeral(b[1..]));
      } else if y < x {
        HeadDecides(y, x, p, Numeral(b[1..]), Numeral(a[1..]));
      } else {
        LexIsNumeric(a[1..], b[1..]);
      }
    }
  }

  lemma {:induction false} PowMonotone(d: nat, e: nat)
    requires d <= e
    ensures Pow(10, d) <= Pow(10, e)
  {
    if d < e {
      PowMonotone(d, e - 1);
    }
  }

  lemma TenDigits()
    ensures Pow(10, 10) == 10000000000 && Pow(10, 9) == 1000000000
  {
    assert Pow(10, 3) == 1000;
    PowAdd(10, 3, 3);
    PowAdd(10, 6, 3);
    PowAdd(10, 9, 1);
  }

  lemma NumeralAppend(k: string, c: char)
    requires AllDigits(k) && '0' <= c <= '9'
    ensures AllDigits(k + [c]) && Numeral(k + [c]) == Numeral(k) * 10 + (c as int - '0' as int)
  {
    assert (k + [c])[..|k|] == k;
  }

  lemma LeftHalf()
    ensures AllDigits("42949") && Numeral("42949") == 42949
  {
    Continue("", '4', "4", 0);
    Continue("4", '2', "42", 4);
    Continue("42", '9', "429", 42);
    Continue("429", '4', "4294", 429);
    Continue("4294", '9', "42949", 4294);
  }

  lemma Continue(k: string, c: char, k': string, n: nat)
    requires AllDigits(k) && Numeral(k) == n && '0' <= c <= '9' && k' == k + [c]
    ensures AllDigits(k') && Numeral(k') == n * 10 + (c as int - '0' as int)
  {
    NumeralAppend(k, c);
  }

  lemma LastIndexValue()
    ensures Numeral("4294967294") == 4294967294
  {
    LeftHalf();
    Continue("42949", '6', "429496", 42949);
    Continue("429496", '7', "4294967", 429496);
    Continue("4294967", '2', "42949672", 4294967);
    Continue("42949672", '9', "429496729", 42949672);
    Continue("429496729", '4', "4294967294", 429496729);
  }

  /** What the program takes for an index is the decimal text of a number below `2**32 - 1`. */
  lemma IndexIff(k: string)
    ensures IsIndex(k) <==> IsArrayIndex(k)
  {
    if |k| > 0 && AllDigits(k) && (|k| > 1 ==> k[0] != '0') {
      NumeralBound(k);
      TenDigits();
      LastIndexValue();
      if |k| > 10 {
        PowMonotone(10, |k| - 1);
      } else if |k| == 10 {
        LexIsNumeric("4294967294", k);
      } else {
        PowMonotone(|k|, 9);
      }
    }
  }

  lemma IndexOrder(a: string, b: string)
    requires IsArrayIndex(a) && IsArrayIndex(b) && KeyLess(a, b)
    ensures Numeral(a) < Numeral(b)
  {
    IndexIff(a);
    IndexIff(b);
    if |a| == |b| {
      LexIsNumeric(a, b);
    } else {
      NumeralBound(a);
      NumeralBound(b);
      PowMonotone(|a|, |b| - 1);
      assert b[0] != '0';
    }
  }

  /** The keys of a canonical object: array indices first and by number, then the others by code
      points. */
  lemma KeysListed(fs: seq<Field>, i: nat, j: nat)
    requires DistinctKeys(fs) && i < j < |SortFields(fs)|
    ensures var a, b := SortFields(fs)[i].key, SortFields(fs)[j].key;
      if IsArrayIndex(a) then IsArrayIndex(b) ==> Numeral(a) < Numeral(b) else !IsArrayIndex(b) && Before(a, b)
  {
    SortFieldsSpec(fs);
    var a, b := SortFields(fs)[i].key, SortFields(fs)[j].key;
    assert KeyLess(a, b);
    IndexIff(a);
    IndexIff(b);
    if IsArrayIndex(a) && IsArrayIndex(b) {
      IndexOrder(a, b);
    }
    LexIsBefore(a, b);
  }

  // ---------- Spelling ----------

  /** How one character stands in a text. */
  lemma CharacterSpelt(c: char)
    ensures Escape('"') == "\\\"" && Escape('\\') == "\\\\" && Escape('\n') == "\\n" && Escape('\r') == "\\r"
    ensures Escape('\t') == "\\t" && Escape('\U{8}') == "\\b" && Escape('\U{C}') == "\\f"
    ensures c >= ' ' && c != '"' && c != '\\' ==> Escape(c) == [c]
    ensures c < ' ' && c !in "\n\r\t\U{8}\U{C}" ==>
      Escape(c) == "\\u00" + (if c as int < 16 then "0" else "1") + ToHex([c as int % 16])[1..]
  {
    assert c as int < 16 ==> DigitChar(c as int / 16) == '0';
    assert 16 <= c as int < 32 ==> DigitChar(c as int / 16) == '1';
    assert c as int % 16 < 256;
    assert ToHex([c as int % 16]) == [DigitChar(0), DigitChar(c as int % 16)] + ToHex([c as int % 16][1..]);
    assert ToHex([c as int % 16])[1..] == [DigitChar(c as int % 16)];
  }

  /** Parts with commas between them. */
  function Joined(parts: seq<string>): string {
    if |parts| == 0 then "" else if |parts| == 1 then parts[0] else parts[0] + "," + Joined(parts[1..])
  }

  /** The text of a string: its characters spelt out between quotation marks. */
  function Quoted(s: string): string {
    "\"" + Spelt(s) + "\""
  }

  function Spelt(s: string): string {
    if |s| == 0 then "" else Escape(s[0]) + Spelt(s[1..])
  }

  lemma {:induction false} SpeltConcat(a: string, b: string)
    ensures Spelt(a + b) == Spelt(a) + Spelt(b)
  {
    if |a| == 0 {
      assert a + b == b;
    } else {
      assert (a + b)[1..] == a[1..] + b && (a + b)[0] == a[0];
      SpeltConcat(a[1..], b);
      Assoc(Escape(a[0]), Spelt(a[1..]), Spelt(b));
    }
  }

  lemma {:induction false} QuotedIs(s: string)
    ensures EscapeAll(s) == Spelt(s) + "\"" && Text(Str(s)) == Quoted(s)
  {
    if |s| > 0 {
      QuotedIs(s[1..]);
      Assoc(Escape(s[0]), Spelt(s[1..]), "\"");
    }
    Assoc("\"", Spelt(s), "\"");
  }

  function Texts(es: seq<Json>): (ts: seq<string>)
    ensures |ts| == |es| && forall i :: 0 <= i < |es| ==> ts[i] == Text(es[i])
  {
    seq(|es|, i requires 0 <= i < |es| => Text(es[i]))
  }

  function FieldTexts(fs: seq<Field>): (ts: seq<string>)
    ensures |ts| == |fs| && forall i :: 0 <= i < |fs| ==> ts[i] == Quoted(fs[i].key) + ":" + Text(fs[i].value)
  {
    seq(|fs|, i requires 0 <= i < |fs| => Quoted(fs[i].key) + ":" + Text(fs[i].value))
  }

  lemma JoinedCons(t: string, ts: seq<string>)
    ensures Joined([t] + ts) == if |ts| == 0 then t else t + "," + Joined(ts)
  {
    assert ([t] + ts)[1..] == ts;
  }

  lemma Glue(c: string, t: string, d: string, r: string, e: string)
    ensures c + t + (d + r + e) == c + (t + d + r) + e
  {
  }

  lemma {:induction false} ElemsJoined(es: seq<Json>, first: bool)
    ensures ElemsText(es, first) == (if |es| == 0 then "" else Comma(first)) + Joined(Texts(es)) + "]"
  {
    if |es| > 0 {
      ElemsJoined(es[1..], false);
      assert Texts(es) == [Text(es[0])] + Texts(es[1..]);
      JoinedCons(Text(es[0]), Texts(es[1..]));
      Glue(Comma(first), Text(es[0]), if |es| == 1 then "" else ",", Joined(Texts(es[1..])), "]");
    }
  }

  lemma FieldHead(c: string, k: string, t: string, rest: string)
    ensures c + "\"" + EscapeAll(k) + ":" + t + rest == c + (Quoted(k) + ":" + t) + rest
  {
    QuotedIs(k);
    assert c + "\"" + (Spelt(k) + "\"") + ":" + t + rest == c + (("\"" + Spelt(k) + "\"") + ":" + t) + rest;
  }

  function FieldTextOf(f: Field): string {
    Quoted(f.key) + ":" + Text(f.value)
  }

  lemma FieldTextsCons(fs: seq<Field>)
    requires |fs| > 0
    ensures FieldTexts(fs) == [FieldTextOf(fs[0])] + FieldTexts(fs[1..])
  {
  }

  lemma FieldsTextCons(fs: seq<Field>, first: bool)
    requires |fs| > 0
    ensures FieldsText(fs, first) == Comma(first) + FieldTextOf(fs[0]) + FieldsText(fs[1..], false)
  {
    FieldHead(Comma(first), fs[0].key, Text(fs[0].value), FieldsText(fs[1..], false));
  }

  lemma {:induction false} FieldsJoined(fs: seq<Field>, first: bool)
    ensures FieldsText(fs, first) == (if |fs| == 0 then "" else Comma(first)) + Joined(FieldTexts(fs)) + "}"
  {
    if |fs| > 0 {
      FieldsJoined(fs[1..], false);
      FieldTextsCons(fs);
      FieldsTextCons(fs, first);
      JoinedCons(FieldTextOf(fs[0]), FieldTexts(fs[1..]));
      Glue(Comma(first), FieldTextOf(fs[0]), if |fs| == 1 then "" else ",", Joined(FieldTexts(fs[1..])), "}");
    }
  }

  /** The text of every value. */
  lemma TextIs(v: Json)
    ensures Text(v) ==
      match v
      case Null => "null"
      case Bool(b) => if b then "true" else "false"
      case Num(text) => text
      case Str(s) => Quoted(s)
      case Arr(es) => "[" + Joined(Texts(es)) + "]"
      case Obj(fs) => "{" + Joined(FieldTexts(fs)) + "}"
  {
    match v
    case Str(s) => QuotedIs(s);
    case Arr(es) =>
      ElemsJoined(es, true);
      assert "" + Joined(Texts(es)) == Joined(Texts(es));
    case Obj(fs) =>
      FieldsJoined(fs, true);
      assert "" + Joined(FieldTexts(fs)) == Joined(FieldTexts(fs));
    case _ =>
  }

  /** The text of an optional string. */
  function QuotedOrNull(t: Option<string>): string {
    match t case None => "null" case Some(s) => Quoted(s)
  }

  lemma LeafText(s: string, t: Option<string>)
    ensures CanonicalJson(Str(s)) == Quoted(s) && CanonicalJson(TextOrNull(t)) == QuotedOrNull(t)
  {
    TextIs(Str(s));
    TextIs(TextOrNull(t));
  }

  // ---------- Objects with known keys ----------

  ghost predicate InOrder(gs: seq<Field>) {
    forall i :: 0 < i < |gs| ==> Before(gs[i - 1].key, gs[i].key)
  }

  /** A key that begins with a small letter and needs no escapes. */
  predicate IsOrdinary(k: string) {
    |k| > 0 && 'a' <= k[0] <= 'z' && forall i :: 0 <= i < |k| ==> IsPlain(k[i])
  }

  predicate OrdinaryKeys(gs: seq<Field>) {
    forall i :: 0 <= i < |gs| ==> IsOrdinary(gs[i].key)
  }

  lemma {:induction false} PlainSpelt(k: string)
    requires forall i :: 0 <= i < |k| ==> IsPlain(k[i])
    ensures Spelt(k) == k
  {
    if |k| > 0 {
      PlainSpelt(k[1..]);
      assert k == [k[0]] + k[1..];
    }
  }

  /** `"k":text` */
  function Keyed(k: string, text: string): string {
    "\"" + k + "\":" + text
  }

  function KeyedTexts(gs: seq<Field>): (ts: seq<string>)
    ensures |ts| == |gs| && forall i :: 0 <= i < |gs| ==> ts[i] == Keyed(gs[i].key, CanonicalJson(gs[i].value))
  {
    seq(|gs|, i requires 0 <= i < |gs| => Keyed(gs[i].key, CanonicalJson(gs[i].value)))
  }

  lemma KeyedAlike(gs: seq<Field>)
    requires OrdinaryKeys(gs)
    ensures FieldTexts(SortedValues(gs)) == KeyedTexts(gs)
  {
    forall i | 0 <= i < |gs| ensures FieldTexts(SortedValues(gs))[i] == KeyedTexts(gs)[i] {
      PlainSpelt(gs[i].key);
      KeyedText(gs[i].key, CanonicalJson(gs[i].value));
    }
  }

  lemma KeyedText(k: string, text: string)
    requires Spelt(k) == k
    ensures Quoted(k) + ":" + text == Keyed(k, text)
  {
    assert "\"" + k + "\"" + ":" == "\"" + k + "\":";
  }

  lemma InOrderJoin(a: seq<Field>, b: seq<Field>)
    requires InOrder(a) && InOrder(b) && |a| > 0 && |b| > 0 && Before(a[|a| - 1].key, b[0].key)
    ensures InOrder(a + b)
  {
    forall i | 0 < i < |a + b| ensures Before((a + b)[i - 1].key, (a + b)[i].key) {
      if i > |a| {
        assert Before(b[i - |a| - 1].key, b[i - |a|].key);
      }
    }
  }

  lemma KeyedJoin(a: seq<Field>, b: seq<Field>)
    ensures KeyedTexts(a + b) == KeyedTexts(a) + KeyedTexts(b)
  {
  }

  lemma {:induction false} OrderSorts(gs: seq<Field>)
    requires InOrder(gs) && OrdinaryKeys(gs)
    ensures Sorted(gs)
  {
    var n := |gs| - 1;
    if n > 0 {
      OrderSorts(gs[..n]);
      assert Before(gs[n - 1].key, gs[n].key);
      LexIsBefore(gs[n - 1].key, gs[n].key);
      assert KeyLess(gs[n - 1].key, gs[n].key);
      forall i | 0 <= i < n ensures KeyLess(gs[i].key, gs[n].key) {
        if i < n - 1 {
          assert KeyLess(gs[..n][i].key, gs[..n][n - 1].key);
          KeyTransitive(gs[i].key, gs[n - 1].key, gs[n].key);
        }
      }
    }
  }

  function SortedValues(gs: seq<Field>): (r: seq<Field>)
    ensures |r| == |gs| && forall i :: 0 <= i < |gs| ==> r[i] == Field(gs[i].key, SortDeep(gs[i].value))
  {
    seq(|gs|, i requires 0 <= i < |gs| => Field(gs[i].key, SortDeep(gs[i].value)))
  }

  /** The object `fs` with its fields listed by key as in `gs`. */
  lemma SortsTo(fs: seq<Field>, gs: seq<Field>)
    requires InOrder(gs) && OrdinaryKeys(gs) && DistinctKeys(fs) && forall f :: f in fs <==> f in gs
    ensures CanonicalJson(Obj(fs)) == "{" + Joined(KeyedTexts(gs)) + "}"
  {
    var r := SortedValues(gs);
    assert InOrder(r) by {
      forall i | 0 < i < |r| ensures Before(r[i - 1].key, r[i].key) {
        assert Before(gs[i - 1].key, gs[i].key);
      }
    }
    OrderSorts(r);
    SortFieldsSpec(fs);
    forall f ensures f in SortFields(fs) <==> f in r {
      if i :| SortedFieldOf(fs, f, i) {
        assert fs[i] in gs;
        var j :| 0 <= j < |gs| && gs[j] == fs[i];
        assert r[j] == f;
      }
      if f in r {
        var j :| 0 <= j < |r| && r[j] == f;
        assert gs[j] in fs;
        var i :| 0 <= i < |fs| && fs[i] == gs[j];
        assert PROTO[0] == '_';
        assert SortedFieldOf(fs, f, i);
      }
    }
    SortedUnique(SortFields(fs), r);
    KeyedAlike(gs);
    TextIs(Obj(r));
  }
}
