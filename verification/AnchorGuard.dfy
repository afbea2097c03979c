/** The anchor guard depends on one field: an anchor of bare hashes is refused exactly when the
    lower-cased JSON text of its exam id contains a forbidden word. */
module AnchorGuard {
  import opened ByteStrings
  import opened JsonText
  import opened HqIngest

  /** What a caller can check before exporting. */
  predicate ExamIdClean(exam: string) {
    NoForbidden(Lower(EscapeAll(exam)))
  }

  // ---------- Substrings ----------

  lemma {:induction false} ContainsSplit(a: string, sep: char, b: string, w: string)
    requires |w| > 0 && sep !in w
    ensures Contains(a + [sep] + b, w) <==> Contains(a, w) || Contains(b, w)
  {
    var s := a + [sep] + b;
    if |a| == 0 {
      assert s[1..] == b && s[0] == sep;
    } else {
      ContainsSplit(a[1..], sep, b, w);
      assert s[1..] == a[1..] + [sep] + b;
      PrefixSplit(a, sep, b, w);
    }
  }

  lemma PrefixSplit(a: string, sep: char, b: string, w: string)
    requires sep !in w
    ensures w <= a + [sep] + b <==> w <= a
  {
    var s := a + [sep] + b;
    assert s[|a|] == sep && s[..|a|] == a;
    if w <= s && |w| <= |a| {
      assert w == s[..|w|] == a[..|w|];
    }
    if w <= a {
      assert w == a[..|w|] == s[..|w|];
    }
  }

  lemma LowerConcat(a: string, b: string)
    ensures Lower(a + b) == Lower(a) + Lower(b)
  {
  }

  // ---------- Texts without a forbidden word ----------

  /** Every forbidden word contains one of these pairs of letters. */
  predicate BadPair(c: char, d: char) {
    || (c == 'l' && d == 'l') || (c == 'n' && d == 'a') || (c == 'a' && d == 'r')
    || (c == 'd' && d == 'o') || (c == 'c' && d == 'i') || (c == 's' && d == 'e')
  }

  predicate Avoids(s: string) {
    forall i :: 0 <= i < |s| - 1 ==> !BadPair(s[i], s[i + 1])
  }

  /** Where the bad pair of a forbidden word is. */
  const PAIR_AT: seq<nat> := [2, 0, 5, 0, 0, 0]

  lemma PairsInWords(k: nat)
    requires k < |FORBIDDEN|
    ensures var w := FORBIDDEN[k]; PAIR_AT[k] + 1 < |w| && BadPair(w[PAIR_AT[k]], w[PAIR_AT[k] + 1])
  {
    assert FORBIDDEN[0] == "roll" && FORBIDDEN[1] == "name" && FORBIDDEN[2] == "aadhaar";
    assert FORBIDDEN[3] == "dob" && FORBIDDEN[4] == "ciphertext" && FORBIDDEN[5] == "seat";
  }

  lemma {:induction false} AvoidsWord(s: string, k: nat)
    requires k < |FORBIDDEN| && Avoids(s)
    ensures !Contains(s, FORBIDDEN[k])
  {
    var w := FORBIDDEN[k];
    PairsInWords(k);
    if |s| > 0 {
      assert Avoids(s[1..]) by {
        forall i | 0 <= i < |s[1..]| - 1 ensures !BadPair(s[1..][i], s[1..][i + 1]) {
          assert !BadPair(s[i + 1], s[i + 2]);
        }
      }
      AvoidsWord(s[1..], k);
    }
  }

  /** A mark is a character that is no letter. */
  predicate IsMark(c: char) {
    c == '"' || c == ':' || c == ',' || c == '{' || c == '}' || c == '-' || c == '.' || c == '+'
  }

  lemma AvoidsConcat(a: string, b: string)
    requires Avoids(a) && Avoids(b) && |b| > 0 && IsMark(b[0])
    ensures Avoids(a + b)
  {
  }

  lemma AvoidsAfterMark(a: string, b: string)
    requires Avoids(a) && Avoids(b) && |a| > 0 && IsMark(a[|a| - 1])
    ensures Avoids(a + b)
  {
  }

  /** Hexadecimal digits, and the characters of a number. */
  predicate IsTame(c: char) { IsLowerHexDigit(c) || IsMark(c) }

  lemma TameAvoids(s: string)
    requires forall i :: 0 <= i < |s| ==> IsTame(s[i])
    ensures Avoids(s)
  {
  }

  lemma TameLower(s: string)
    requires forall i :: 0 <= i < |s| ==> IsTame(s[i])
    ensures Lower(s) == s
  {
  }

  // ---------- The text of an anchor ----------

  lemma {:induction false} PlainEscapes(s: string)
    requires IsPlainText(s)
    ensures EscapeAll(s) == s + "\""
  {
    if |s| > 0 {
      PlainEscapes(s[1..]);
    }
  }

  lemma {:induction false} LastIsQuote(s: string)
    ensures EscapeAll(s)[|EscapeAll(s)| - 1] == '"'
  {
    if |s| > 0 {
      LastIsQuote(s[1..]);
    }
  }

  ghost predicate LowerAvoids(s: string) { Avoids(Lower(s)) }

  lemma LowerAvoidsConcat(a: string, b: string)
    requires LowerAvoids(a) && LowerAvoids(b) && |b| > 0 && IsMark(b[0])
    ensures LowerAvoids(a + b)
  {
    LowerConcat(a, b);
    AvoidsConcat(Lower(a), Lower(b));
  }

  lemma LowerAvoidsAfterMark(a: string, b: string)
    requires LowerAvoids(a) && LowerAvoids(b) && |a| > 0 && IsMark(a[|a| - 1])
    ensures LowerAvoids(a + b) && |a + b| > 0
  {
    LowerConcat(a, b);
    AvoidsAfterMark(Lower(a), Lower(b));
  }

  /** `"key":` */
  function KeyText(key: string): string {
    "\"" + EscapeAll(key) + ":"
  }

  predicate IsPlainText(s: string) { forall i :: 0 <= i < |s| ==> IsPlain(s[i]) }

  lemma KeyAvoids(key: string)
    requires LowerAvoids(key) && IsPlainText(key)
    ensures LowerAvoids(KeyText(key))
  {
    PlainEscapes(key);
    LowerAvoidsConcat(key, "\"");
    LowerAvoidsAfterMark("\"", EscapeAll(key));
    LowerAvoidsConcat("\"" + EscapeAll(key), ":");
  }

  lemma AvoidsJoin(a: string, b: string)
    requires Avoids(a) && Avoids(b) && |a| > 0 && |b| > 0 && !BadPair(a[|a| - 1], b[0])
    ensures Avoids(a + b)
  {
  }

  lemma CentreKeyPlain() ensures IsPlainText("centreIdHash") {}

  lemma CentreKeyAvoids() ensures LowerAvoids("centreIdHash") {
    var a, b := "centre", "IdHash";
    assert Lower(a) == "centre" && Lower(b) == "idhash";
    AvoidsJoin(Lower(a), Lower(b));
    LowerConcat(a, b);
    assert a + b == "centreIdHash";
  }

  lemma CentreKey() ensures LowerAvoids(KeyText("centreIdHash")) {
    CentreKeyPlain();
    CentreKeyAvoids();
    KeyAvoids("centreIdHash");
  }

  lemma ExamKey() ensures LowerAvoids(KeyText("examId")) {
    KeyAvoids("examId");
  }

  lemma RootKeyPlain() ensures IsPlainText("answerRoot") {}

  lemma RootKeyAvoids() ensures LowerAvoids("answerRoot") {
    var a, b := "answe", "rRoot";
    assert Lower(a) == "answe" && Lower(b) == "rroot";
    AvoidsJoin(Lower(a), Lower(b));
    LowerConcat(a, b);
    assert a + b == "answerRoot";
  }

  lemma RootKey() ensures LowerAvoids(KeyText("answerRoot")) {
    RootKeyPlain();
    RootKeyAvoids();
    KeyAvoids("answerRoot");
  }

  lemma CountKey() ensures LowerAvoids(KeyText("count")) {
    KeyAvoids("count");
  }

  lemma PubkeyKeyPlain() ensures IsPlainText("nodePubkey") {}

  lemma PubkeyKeyAvoids() ensures LowerAvoids("nodePubkey") {
    var a, b := "nodeP", "ubkey";
    assert Lower(a) == "nodep" && Lower(b) == "ubkey";
    AvoidsJoin(Lower(a), Lower(b));
    LowerConcat(a, b);
    assert a + b == "nodePubkey";
  }

  lemma PubkeyKey() ensures LowerAvoids(KeyText("nodePubkey")) {
    PubkeyKeyPlain();
    PubkeyKeyAvoids();
    KeyAvoids("nodePubkey");
  }

  lemma HexAvoids(s: string)
    requires IsLowerHex(s)
    ensures LowerAvoids(Text(Str(s)))
  {
    PlainEscapes(s);
    TameAvoids(Text(Str(s)));
    TameLower(Text(Str(s)));
  }

  lemma NumberAvoids(n: NumText)
    ensures LowerAvoids(Text(Num(n)))
  {
    TameAvoids(n);
    TameLower(n);
  }

  lemma RestStartsWithMark(fs: seq<Field>)
    ensures IsMark(FieldsText(fs, false)[0])
  {
  }

  lemma FieldText(f: Field, fs: seq<Field>, first: bool)
    ensures FieldsText([f] + fs, first) == Comma(first) + KeyText(f.key) + Text(f.value) + FieldsText(fs, false)
  {
    assert ([f] + fs)[1..] == fs;
  }

  /** The text of further fields avoids the words if the pieces do. */
  lemma FieldsAvoid(f: Field, fs: seq<Field>)
    requires LowerAvoids(KeyText(f.key)) && LowerAvoids(Text(f.value)) && LowerAvoids(FieldsText(fs, false))
    ensures LowerAvoids(FieldsText([f] + fs, false))
  {
    var key, value, rest := KeyText(f.key), Text(f.value), FieldsText(fs, false);
    RestStartsWithMark(fs);
    LowerAvoidsAfterMark(",", key);
    LowerAvoidsAfterMark("," + key, value);
    LowerAvoidsConcat("," + key + value, rest);
    FieldText(f, fs, false);
  }

  // ---------- What the guard decides ----------

  function RestJson(env: Env, a: AnchorPayload): seq<Field> {
    [Field("answerRoot", Str(a.answerRoot))]
      + ([Field("count", Num(env.number(a.count)))] + ([Field("nodePubkey", Str(a.nodePubkey))] + []))
  }

  /** The text from behind the exam id. */
  function After(env: Env, a: AnchorPayload): string {
    FieldsText(RestJson(env, a), false)
  }

  /** The text before the opening quote of the exam id. */
  function Before(a: AnchorPayload): string {
    "{" + KeyText("centreIdHash") + Text(Str(a.centreIdHash)) + "," + KeyText("examId")
  }

  lemma AfterAvoids(env: Env, a: AnchorPayload)
    requires IsLowerHex(a.answerRoot) && IsLowerHex(a.nodePubkey)
    ensures LowerAvoids(After(env, a)) && IsMark(After(env, a)[0])
  {
    RootKey();
    CountKey();
    PubkeyKey();
    HexAvoids(a.answerRoot);
    NumberAvoids(env.number(a.count));
    HexAvoids(a.nodePubkey);
    var f, g := Field("nodePubkey", Str(a.nodePubkey)), Field("count", Num(env.number(a.count)));
    FieldsAvoid(f, []);
    FieldsAvoid(g, [f] + []);
    FieldsAvoid(Field("answerRoot", Str(a.answerRoot)), [g] + ([f] + []));
    RestStartsWithMark(RestJson(env, a));
  }

  lemma BeforeAvoids(a: AnchorPayload)
    requires IsLowerHex(a.centreIdHash)
    ensures LowerAvoids(Before(a))
  {
    CentreKey();
    ExamKey();
    HexAvoids(a.centreIdHash);
    LowerAvoidsAfterMark("{", KeyText("centreIdHash"));
    LowerAvoidsAfterMark("{" + KeyText("centreIdHash"), Text(Str(a.centreIdHash)));
    LowerAvoidsConcat("{" + KeyText("centreIdHash") + Text(Str(a.centreIdHash)), ",");
    LowerAvoidsAfterMark("{" + KeyText("centreIdHash") + Text(Str(a.centreIdHash)) + ",", KeyText("examId"));
  }

  lemma Glue(k1: string, t1: string, k2: string, e: string, after: string)
    ensures "{" + ("" + k1 + t1 + ("," + k2 + ("\"" + e) + after)) == "{" + k1 + t1 + "," + k2 + ['"'] + (e + after)
  {
  }

  lemma ObjectText(f: Field, g: Field, rest: seq<Field>, exam: string)
    requires g.value == Str(exam)
    ensures Text(Obj([f] + ([g] + rest)))
      == "{" + KeyText(f.key) + Text(f.value) + "," + KeyText(g.key)
        + ['"'] + (EscapeAll(exam) + FieldsText(rest, false))
  {
    FieldText(f, [g] + rest, true);
    FieldText(g, rest, false);
    Glue(KeyText(f.key), Text(f.value), KeyText(g.key), EscapeAll(exam), FieldsText(rest, false));
  }

  lemma FieldsSplit(env: Env, a: AnchorPayload)
    ensures AnchorFields(env, a)
      == [Field("centreIdHash", Str(a.centreIdHash))] + ([Field("examId", Str(a.examId))] + RestJson(env, a))
  {
  }

  lemma AnchorText(env: Env, a: AnchorPayload)
    ensures Text(AnchorJson(env, a)) == Before(a) + ['"'] + (EscapeAll(a.examId) + After(env, a))
  {
    FieldsSplit(env, a);
    ObjectText(Field("centreIdHash", Str(a.centreIdHash)), Field("examId", Str(a.examId)), RestJson(env, a), a.examId);
  }

  lemma {:induction false} NothingContains(w: string)
    requires |w| > 0
    ensures !Contains("", w)
  {
  }

  /** A word without quotes is in the text exactly when it is in the exam id's part. */
  lemma WordInExam(before: string, escaped: string, after: string, w: string)
    requires |w| > 0 && '"' !in w && !Contains(before, w) && !Contains(after, w)
    requires |escaped| > 0 && escaped[|escaped| - 1] == '"'
    ensures Contains(before + ['"'] + (escaped + after), w) <==> Contains(escaped, w)
  {
    var body := escaped[..|escaped| - 1];
    assert escaped == body + ['"'] + "";
    assert escaped + after == body + ['"'] + after;
    ContainsSplit(before, '"', escaped + after, w);
    ContainsSplit(body, '"', after, w);
    ContainsSplit(body, '"', "", w);
    NothingContains(w);
  }

  lemma WordsAreUnquoted(k: nat)
    requires k < |FORBIDDEN|
    ensures |FORBIDDEN[k]| > 0 && '"' !in FORBIDDEN[k]
  {
    assert FORBIDDEN[0] == "roll" && FORBIDDEN[1] == "name" && FORBIDDEN[2] == "aadhaar";
    assert FORBIDDEN[3] == "dob" && FORBIDDEN[4] == "ciphertext" && FORBIDDEN[5] == "seat";
  }

  lemma LowerParts(b: string, e: string, s: string)
    ensures Lower(b + ['"'] + (e + s)) == Lower(b) + ['"'] + (Lower(e) + Lower(s))
  {
    LowerConcat(b + ['"'], e + s);
    LowerConcat(b, ['"']);
    LowerConcat(e, s);
    assert Lower(['"']) == ['"'];
  }

  lemma WordAround(t: string, b: string, e: string, s: string, k: nat)
    requires k < |FORBIDDEN| && t == b + ['"'] + (e + s)
    requires LowerAvoids(b) && LowerAvoids(s) && |e| > 0 && e[|e| - 1] == '"'
    ensures Contains(Lower(t), FORBIDDEN[k]) <==> Contains(Lower(e), FORBIDDEN[k])
  {
    LowerParts(b, e, s);
    WordsAreUnquoted(k);
    AvoidsWord(Lower(b), k);
    AvoidsWord(Lower(s), k);
    WordInExam(Lower(b), Lower(e), Lower(s), FORBIDDEN[k]);
  }

  /** The text of an anchor around its exam id; what is around avoids the words. */
  lemma AnchorParts(env: Env, a: AnchorPayload) returns (before: string, after: string)
    requires IsLowerHex(a.centreIdHash) && IsLowerHex(a.answerRoot) && IsLowerHex(a.nodePubkey)
    ensures Text(AnchorJson(env, a)) == before + ['"'] + (EscapeAll(a.examId) + after)
    ensures LowerAvoids(before) && LowerAvoids(after)
  {
    before, after := Before(a), After(env, a);
    BeforeAvoids(a);
    AfterAvoids(env, a);
    AnchorText(env, a);
  }

  lemma GuardWord(env: Env, a: AnchorPayload, k: nat)
    requires k < |FORBIDDEN| && IsLowerHex(a.centreIdHash) && IsLowerHex(a.answerRoot) && IsLowerHex(a.nodePubkey)
    ensures Contains(Lower(Text(AnchorJson(env, a))), FORBIDDEN[k])
      <==> Contains(Lower(EscapeAll(a.examId)), FORBIDDEN[k])
  {
    var before, after := AnchorParts(env, a);
    LastIsQuote(a.examId);
    WordAround(Text(AnchorJson(env, a)), before, EscapeAll(a.examId), after, k);
  }

  /** The guard passes an anchor exactly when its three hashes are bare and its exam id is clean:
      no centre, count or root can make it fail. */
  lemma GuardExactly(env: Env, a: AnchorPayload)
    ensures AnchorClean(env, a) <==>
      IsBareHash(a.centreIdHash) && IsBareHash(a.answerRoot) && IsBareHash(a.nodePubkey) && ExamIdClean(a.examId)
  {
    if IsBareHash(a.centreIdHash) && IsBareHash(a.answerRoot) && IsBareHash(a.nodePubkey) {
      forall k | 0 <= k < |FORBIDDEN|
        ensures Contains(Lower(Text(AnchorJson(env, a))), FORBIDDEN[k])
          <==> Contains(Lower(EscapeAll(a.examId)), FORBIDDEN[k])
      {
        GuardWord(env, a, k);
      }
    }
  }

  /** Identifiers of hexadecimal digits and dashes, such as UUIDs, are clean. */
  lemma UuidsAreClean(exam: string)
    requires forall i :: 0 <= i < |exam| ==> IsHexDigit(exam[i]) || exam[i] == '-'
    ensures ExamIdClean(exam)
  {
    PlainEscapes(exam);
    TameAvoids(Lower(EscapeAll(exam)));
    forall k | 0 <= k < |FORBIDDEN| ensures !Contains(Lower(EscapeAll(exam)), FORBIDDEN[k]) {
      AvoidsWord(Lower(EscapeAll(exam)), k);
    }
  }

  /** The check looks at escaped text: a line feed is spelt with an `n`, so one before `ame` is
      refused. */
  lemma EscapesCount()
    ensures !ExamIdClean("\name")
  {
    assert "\name"[0] == '\n' && "\name"[1..] == "ame";
    PlainEscapes("ame");
    var escaped := EscapeAll("\name");
    assert escaped == ['\\', 'n', 'a', 'm', 'e', '"'];
    assert Lower(escaped) == ['\\', 'n', 'a', 'm', 'e', '"'];
    assert Lower(escaped)[1..] == "name\"";
    assert Contains(Lower(escaped), FORBIDDEN[1]);
  }
}
