/** The manifest hash binds the manifest: every field of every record. */
module HqTamper {
  import opened ByteStrings
  import opened JsonText
  import opened CanonicalText
  import opened HqIngest
  import opened HqAgreement

  /** UTF-8 loses nothing, and different integers print differently. */
  ghost predicate TextsDiffer(env: Env) {
    && (forall s, t :: env.utf8(s) == env.utf8(t) ==> s == t)
    && (forall i, j :: env.number(i) == env.number(j) ==> i == j)
  }

  // ---------- Keys ----------

  /** Two properties that tell the keys of a record, and those of a manifest, apart. */
  function Mark(key: string): (int, char)
    requires |key| > 0
  {
    (|key|, key[0])
  }

  lemma RecordMarks(env: Env, r: ExportRecord)
    ensures var fs := RecordFields(env, r);
      && (forall i :: 0 <= i < 11 ==> |fs[i].key| > 0 && fs[i].key[0] != '_')
      && Mark(fs[0].key) == (6, 'e') && Mark(fs[1].key) == (6, 's') && Mark(fs[2].key) == (9, 'l')
      && Mark(fs[3].key) == (4, 'l') && Mark(fs[4].key) == (8, 'p') && Mark(fs[5].key) == (9, 'c')
      && Mark(fs[6].key) == (11, 'n') && Mark(fs[7].key) == (10, 'c') && Mark(fs[8].key) == (2, 'i')
      && Mark(fs[9].key) == (7, 'a') && Mark(fs[10].key) == (9, 'w')
  {
  }

  lemma RecordKeysDistinct(env: Env, r: ExportRecord)
    ensures DistinctKeys(RecordFields(env, r))
  {
    RecordMarks(env, r);
    var fs := RecordFields(env, r);
    forall i, j | 0 <= i < j < 11 ensures fs[i].key != fs[j].key {
      assert Mark(fs[i].key) != Mark(fs[j].key);
    }
  }

  lemma ManifestKeys(env: Env, m: Manifest)
    ensures DistinctKeys(ManifestFields(env, m))
    ensures forall i :: 0 <= i < 4 ==> ManifestFields(env, m)[i].key != PROTO
  {
    var fs := ManifestFields(env, m);
    assert |fs[0].key| == 8 && |fs[1].key| == 5 && |fs[2].key| == 7 && |fs[3].key| == 10;
    assert |PROTO| == 9;
  }

  lemma TextOrNullValid(t: Option<string>)
    ensures Valid(TextOrNull(t))
  {
  }

  lemma RecordValid(env: Env, r: ExportRecord)
    ensures Valid(Obj(RecordFields(env, r)))
  {
    RecordKeysDistinct(env, r);
    TextOrNullValid(r.seatNo);
  }

  lemma ManifestValid(env: Env, m: Manifest)
    ensures Valid(ManifestJson(env, m))
  {
    ManifestKeys(env, m);
    var es := RecordsJson(env, m.records);
    forall i | 0 <= i < |es| ensures Valid(es[i]) {
      RecordValid(env, m.records[i]);
    }
    assert Valid(Arr(es));
  }

  // ---------- Values ----------

  predicate IsLeaf(v: Json) { !v.Arr? && !v.Obj? }

  /** Fields of equal visible keys whose values are no containers. */
  predicate FlatAlike(fs: seq<Field>, gs: seq<Field>) {
    |fs| == |gs| && forall i :: 0 <= i < |fs| ==> fs[i].key == gs[i].key != PROTO && IsLeaf(fs[i].value)
  }

  lemma FlatSame(fs: seq<Field>, gs: seq<Field>)
    requires FlatAlike(fs, gs) && SameVisible(Obj(fs), Obj(gs))
    ensures fs == gs
  {
    forall i | 0 <= i < |fs| ensures fs[i] == gs[i] {
      FieldSame(fs, gs, i);
    }
  }

  lemma RecordsAlike(env: Env, r: ExportRecord, s: ExportRecord)
    ensures FlatAlike(RecordFields(env, r), RecordFields(env, s))
  {
    RecordMarks(env, r);
    var fs, gs := RecordFields(env, r), RecordFields(env, s);
    assert PROTO[0] == '_';
    forall i | 0 <= i < 11 ensures fs[i].key == gs[i].key != PROTO {
      assert fs[i].key[0] != '_';
    }
  }

  /** The fields of a record show every component of it. */
  lemma FieldsShowRecord(env: Env, r: ExportRecord, s: ExportRecord)
    requires TextsDiffer(env) && RecordFields(env, r) == RecordFields(env, s)
    ensures r == s
  {
    var fs, gs := RecordFields(env, r), RecordFields(env, s);
    assert fs[0].value == gs[0].value && fs[1].value == gs[1].value && fs[2].value == gs[2].value
      && fs[3].value == gs[3].value;
    assert fs[4].value == gs[4].value && fs[5].value == gs[5].value && fs[6].value == gs[6].value
      && fs[7].value == gs[7].value;
    assert fs[8].value == gs[8].value && fs[9].value == gs[9].value && fs[10].value == gs[10].value;
  }

  lemma RecordDetermined(env: Env, r: ExportRecord, s: ExportRecord)
    requires TextsDiffer(env) && SameVisible(Obj(RecordFields(env, r)), Obj(RecordFields(env, s)))
    ensures r == s
  {
    RecordsAlike(env, r, s);
    FlatSame(RecordFields(env, r), RecordFields(env, s));
    FieldsShowRecord(env, r, s);
  }

  lemma RecordsDetermined(env: Env, rs: seq<ExportRecord>, ss: seq<ExportRecord>)
    requires TextsDiffer(env) && SameVisible(Arr(RecordsJson(env, rs)), Arr(RecordsJson(env, ss)))
    ensures rs == ss
  {
    forall i | 0 <= i < |rs| ensures rs[i] == ss[i] {
      assert SameVisible(RecordsJson(env, rs)[i], RecordsJson(env, ss)[i]);
      RecordDetermined(env, rs[i], ss[i]);
    }
  }

  lemma ManifestDetermined(env: Env, m: Manifest, n: Manifest)
    requires TextsDiffer(env) && SameVisible(ManifestJson(env, m), ManifestJson(env, n))
    ensures m == n
  {
    ManifestKeys(env, m);
    var fs, gs := ManifestFields(env, m), ManifestFields(env, n);
    FieldSame(fs, gs, 0);
    FieldSame(fs, gs, 1);
    FieldSame(fs, gs, 2);
    FieldSame(fs, gs, 3);
    RecordsDetermined(env, m.records, n.records);
  }

  // ---------- Tampering ----------

  /** The two strings that are hashed for two manifests. */
  function ManifestConflict(env: Env, m: Manifest, n: Manifest): (Bytes, Bytes) {
    (env.utf8(CanonicalJson(ManifestJson(env, m))), env.utf8(CanonicalJson(ManifestJson(env, n))))
  }

  /** Manifests with one hash are equal in every field of every record, or the hashed strings
      collide. */
  lemma ManifestBinds(env: Env, m: Manifest, n: Manifest)
    requires TextsDiffer(env) && ManifestDigest(env, m) == ManifestDigest(env, n)
    ensures m == n || Collision(env.hash, ManifestConflict(env, m, n))
  {
    if CanonicalJson(ManifestJson(env, m)) == CanonicalJson(ManifestJson(env, n)) {
      ManifestValid(env, m);
      ManifestValid(env, n);
      CanonicalIff(ManifestJson(env, m), ManifestJson(env, n));
      ManifestDetermined(env, m, n);
    }
  }

  /** A bundle altered in transit, in whatever field of whatever record, under the hash of an
      authentic bundle is refused by the very first check, on either side, or the hash collides. */
  lemma AlteredBundleRefused(env: Env, site: Site, b: SyncBundle, altered: SyncBundle)
    requires TextsDiffer(env) && Authentic(env, b)
    requires altered.manifestHash == b.manifestHash && altered.manifest != b.manifest
    ensures IngestOutcome(env, site, altered) == Failed(Refused(ManifestHash))
         || Collision(env.hash, ManifestConflict(env, b.manifest, altered.manifest))
  {
    if ToHex(ManifestDigest(env, altered.manifest)) == altered.manifestHash {
      FromToHex(ManifestDigest(env, altered.manifest));
      FromToHex(ManifestDigest(env, b.manifest));
      ManifestBinds(env, b.manifest, altered.manifest);
    }
  }

  // ---------- The text that is signed ----------

  /** The fields of a record with their keys in order, in three parts. */
  function FirstColumns(r: ExportRecord): (gs: seq<Field>)
    ensures |gs| == 4
  {
    [Field("authTag", Str(r.authTag)), Field("chainRoot", Str(r.chainRoot)), Field("ciphertext", Str(r.ciphertext)),
     Field("examId", Str(r.examId))]
  }

  function MiddleColumns(env: Env, r: ExportRecord): (gs: seq<Field>)
    ensures |gs| == 4
  {
    [Field("iv", Str(r.iv)), Field("leaf", Str(r.leaf)), Field("leafIndex", Num(env.number(r.leafIndex))),
     Field("nodeRootSig", Str(r.nodeRootSig))]
  }

  function LastColumns(r: ExportRecord): (gs: seq<Field>)
    ensures |gs| == 3
  {
    [Field("prevRoot", Str(r.prevRoot)), Field("seatNo", TextOrNull(r.seatNo)), Field("wrappedDk", Str(r.wrappedDk))]
  }

  function RecordColumns(env: Env, r: ExportRecord): (gs: seq<Field>)
    ensures |gs| == 11
  {
    FirstColumns(r) + (MiddleColumns(env, r) + LastColumns(r))
  }

  lemma FirstInOrder(r: ExportRecord)
    ensures InOrder(FirstColumns(r)) && OrdinaryKeys(FirstColumns(r))
  {
    assert PartsAt("authTag", "chainRoot", 0) && PartsAt("chainRoot", "ciphertext", 1);
    assert PartsAt("ciphertext", "examId", 0);
  }

  lemma MiddleInOrder(env: Env, r: ExportRecord)
    ensures InOrder(MiddleColumns(env, r)) && OrdinaryKeys(MiddleColumns(env, r))
  {
    assert "leafIndex"[..4] == "leaf";
    assert PartsAt("iv", "leaf", 0) && PartsAt("leaf", "leafIndex", 4) && PartsAt("leafIndex", "nodeRootSig", 0);
  }

  lemma LastInOrder(r: ExportRecord)
    ensures InOrder(LastColumns(r)) && OrdinaryKeys(LastColumns(r))
  {
    assert PartsAt("prevRoot", "seatNo", 0) && PartsAt("seatNo", "wrappedDk", 0);
  }

  lemma BetweenParts(env: Env, r: ExportRecord)
    ensures Before(FirstColumns(r)[3].key, MiddleColumns(env, r)[0].key)
    ensures Before(MiddleColumns(env, r)[3].key, LastColumns(r)[0].key)
  {
    assert PartsAt("examId", "iv", 0) && PartsAt("nodeRootSig", "prevRoot", 0);
  }

  lemma ColumnsInOrder(env: Env, r: ExportRecord)
    ensures InOrder(RecordColumns(env, r)) && OrdinaryKeys(RecordColumns(env, r))
  {
    FirstInOrder(r);
    MiddleInOrder(env, r);
    LastInOrder(r);
    BetweenParts(env, r);
    Together(FirstColumns(r), MiddleColumns(env, r), LastColumns(r));
  }

  lemma Together(a: seq<Field>, b: seq<Field>, c: seq<Field>)
    requires InOrder(a) && InOrder(b) && InOrder(c) && OrdinaryKeys(a) && OrdinaryKeys(b) && OrdinaryKeys(c)
    requires |a| == |b| == 4 && |c| == 3 && Before(a[3].key, b[0].key) && Before(b[3].key, c[0].key)
    ensures InOrder(a + (b + c)) && OrdinaryKeys(a + (b + c))
  {
    InOrderJoin(b, c);
    InOrderJoin(a, b + c);
  }

  lemma ColumnsAreFields(env: Env, r: ExportRecord)
    ensures forall f :: f in RecordFields(env, r) <==> f in RecordColumns(env, r)
  {
    var fs, a, b, c := RecordFields(env, r), FirstColumns(r), MiddleColumns(env, r), LastColumns(r);
    assert a[0] == fs[9] && a[1] == fs[5] && a[2] == fs[7] && a[3] == fs[0];
    assert b[0] == fs[8] && b[1] == fs[3] && b[2] == fs[2] && b[3] == fs[6];
    assert c[0] == fs[4] && c[1] == fs[1] && c[2] == fs[10];
  }

  /** The canonical text of a record. */
  function RecordText(env: Env, r: ExportRecord): string {
    "{" + Joined([Keyed("authTag", Quoted(r.authTag)), Keyed("chainRoot", Quoted(r.chainRoot)),
                  Keyed("ciphertext", Quoted(r.ciphertext)), Keyed("examId", Quoted(r.examId))]
                 + ([Keyed("iv", Quoted(r.iv)), Keyed("leaf", Quoted(r.leaf)),
                     Keyed("leafIndex", env.number(r.leafIndex)),
                     Keyed("nodeRootSig", Quoted(r.nodeRootSig))]
                    + [Keyed("prevRoot", Quoted(r.prevRoot)), Keyed("seatNo", QuotedOrNull(r.seatNo)),
                       Keyed("wrappedDk", Quoted(r.wrappedDk))])) + "}"
  }

  lemma FirstTexts(r: ExportRecord)
    ensures KeyedTexts(FirstColumns(r)) ==
      [Keyed("authTag", Quoted(r.authTag)), Keyed("chainRoot", Quoted(r.chainRoot)),
       Keyed("ciphertext", Quoted(r.ciphertext)), Keyed("examId", Quoted(r.examId))]
  {
    LeafText(r.authTag, None);
    LeafText(r.chainRoot, None);
    LeafText(r.ciphertext, None);
    LeafText(r.examId, None);
  }

  lemma MiddleTexts(env: Env, r: ExportRecord)
    ensures KeyedTexts(MiddleColumns(env, r)) ==
      [Keyed("iv", Quoted(r.iv)), Keyed("leaf", Quoted(r.leaf)), Keyed("leafIndex", env.number(r.leafIndex)),
       Keyed("nodeRootSig", Quoted(r.nodeRootSig))]
  {
    LeafText(r.iv, None);
    LeafText(r.leaf, None);
    LeafText(r.nodeRootSig, None);
  }

  lemma LastTexts(r: ExportRecord)
    ensures KeyedTexts(LastColumns(r)) ==
      [Keyed("prevRoot", Quoted(r.prevRoot)), Keyed("seatNo", QuotedOrNull(r.seatNo)),
       Keyed("wrappedDk", Quoted(r.wrappedDk))]
  {
    LeafText(r.prevRoot, r.seatNo);
    LeafText(r.wrappedDk, None);
  }

  lemma RecordTextIs(env: Env, r: ExportRecord)
    ensures CanonicalJson(Obj(RecordFields(env, r))) == RecordText(env, r)
  {
    RecordSorted(env, r);
    FirstTexts(r);
    MiddleTexts(env, r);
    LastTexts(r);
    KeyedJoin(FirstColumns(r), MiddleColumns(env, r) + LastColumns(r));
    KeyedJoin(MiddleColumns(env, r), LastColumns(r));
  }

  lemma RecordSorted(env: Env, r: ExportRecord)
    ensures CanonicalJson(Obj(RecordFields(env, r))) == "{" + Joined(KeyedTexts(RecordColumns(env, r))) + "}"
  {
    RecordKeysDistinct(env, r);
    ColumnsInOrder(env, r);
    ColumnsAreFields(env, r);
    SortsTo(RecordFields(env, r), RecordColumns(env, r));
  }

  function RecordTexts(env: Env, rs: seq<ExportRecord>): (ts: seq<string>)
    ensures |ts| == |rs| && forall i :: 0 <= i < |rs| ==> ts[i] == RecordText(env, rs[i])
  {
    seq(|rs|, i requires 0 <= i < |rs| => RecordText(env, rs[i]))
  }

  function ManifestColumns(env: Env, m: Manifest): (gs: seq<Field>)
    ensures |gs| == 4
  {
    [Field("centreId", Str(m.centreId)), Field("count", Num(env.number(m.count))),
     Field("exportedAt", Num(env.number(m.exportedAt))), Field("records", Arr(RecordsJson(env, m.records)))]
  }

  lemma ManifestKeyOrder()
    ensures Before("centreId", "count") && Before("count", "exportedAt") && Before("exportedAt", "records")
    ensures IsOrdinary("centreId") && IsOrdinary("count") && IsOrdinary("exportedAt") && IsOrdinary("records")
  {
    assert PartsAt("centreId", "count", 1) && PartsAt("count", "exportedAt", 0) && PartsAt("exportedAt", "records", 0);
  }

  lemma ManifestInOrder(env: Env, m: Manifest)
    ensures InOrder(ManifestColumns(env, m)) && OrdinaryKeys(ManifestColumns(env, m))
  {
    ManifestKeyOrder();
  }

  lemma ManifestIsColumns(env: Env, m: Manifest)
    ensures forall f :: f in ManifestFields(env, m) <==> f in ManifestColumns(env, m)
  {
    var fs, gs := ManifestFields(env, m), ManifestColumns(env, m);
    assert gs[0] == fs[0] && gs[1] == fs[1] && gs[2] == fs[3] && gs[3] == fs[2];
  }

  lemma RecordsTextIs(env: Env, rs: seq<ExportRecord>)
    ensures CanonicalJson(Arr(RecordsJson(env, rs))) == "[" + Joined(RecordTexts(env, rs)) + "]"
  {
    var es := SortElems(RecordsJson(env, rs));
    TextIs(Arr(es));
    forall i | 0 <= i < |rs| ensures Texts(es)[i] == RecordTexts(env, rs)[i] {
      RecordTextIs(env, rs[i]);
    }
    assert Texts(es) == RecordTexts(env, rs);
  }

  lemma ManifestTexts(env: Env, m: Manifest)
    ensures KeyedTexts(ManifestColumns(env, m)) ==
      [Keyed("centreId", Quoted(m.centreId)), Keyed("count", env.number(m.count)),
       Keyed("exportedAt", env.number(m.exportedAt)),
       Keyed("records", "[" + Joined(RecordTexts(env, m.records)) + "]")]
  {
    LeafText(m.centreId, None);
    RecordsTextIs(env, m.records);
  }

  /** What the node signs is the hash of this text. */
  lemma SignedText(env: Env, m: Manifest)
    ensures ManifestDigest(env, m) == env.hash(env.utf8(
      "{" + Joined([Keyed("centreId", Quoted(m.centreId)), Keyed("count", env.number(m.count)),
                    Keyed("exportedAt", env.number(m.exportedAt)),
                    Keyed("records", "[" + Joined(RecordTexts(env, m.records)) + "]")]) + "}"))
  {
    ManifestSorted(env, m);
    ManifestTexts(env, m);
  }

  lemma ManifestSorted(env: Env, m: Manifest)
    ensures CanonicalJson(ManifestJson(env, m)) == "{" + Joined(KeyedTexts(ManifestColumns(env, m))) + "}"
  {
    ManifestKeys(env, m);
    ManifestInOrder(env, m);
    ManifestIsColumns(env, m);
    SortsTo(ManifestFields(env, m), ManifestColumns(env, m));
  }
}
