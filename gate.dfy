/** The idempotency gate of the product-creation webhook
    (server.js lines 52-57) and the update it writes
    (server.js lines 78-101). */
module Gate {
  import opened Wrappers
  import opened Shop

  const GlobalNamespace := "global"
  const UpdatedKey := "updated"
  const TrueText := "true"
  const TextFieldType := "single_line_text_field"

  predicate IsUpdatedFlag(m: Metafield)
  {
    m.namespace == GlobalNamespace && m.key == UpdatedKey
  }

  /** Entry `k` is the first `global`/`updated` entry of `ms`. */
  predicate FirstFlagAt(ms: seq<Metafield>, k: int)
  {
    0 <= k < |ms| && IsUpdatedFlag(ms[k]) && forall j :: 0 <= j < k ==> !IsUpdatedFlag(ms[j])
  }

  /** `Array.prototype.find` for the `global`/`updated` entry. */
  function FindUpdatedFlag(ms: seq<Metafield>): (r: Option<nat>)
    ensures r.Some? ==> FirstFlagAt(ms, r.value)
    ensures r.None? ==> forall j :: 0 <= j < |ms| ==> !IsUpdatedFlag(ms[j])
  {
    if ms == [] then None
    else if IsUpdatedFlag(ms[0]) then Some(0)
    else
      match FindUpdatedFlag(ms[1..])
      case None => None
      case Some(k) => Some(k + 1)
  }

  /** The update is skipped exactly when the first `global`/`updated`
      entry has the value `true` (case-sensitive): a missing entry, or
      any other value, lets the write go ahead. */
  function AlreadyUpdated(ms: seq<Metafield>): (skip: bool)
    ensures skip <==> exists k :: FirstFlagAt(ms, k) && ms[k].value == TrueText
  {
    match FindUpdatedFlag(ms)
    case None => false
    case Some(k) => ms[k].value == TrueText
  }

  /** A later `true` does not rescue a first entry that is not `true`. */
  lemma FirstFlagDecides(ms: seq<Metafield>, k: nat)
    requires FirstFlagAt(ms, k)
    ensures AlreadyUpdated(ms) <==> ms[k].value == TrueText
  {
  }

  // ---------------------------------------------------------------------
  // The update request

  datatype MetafieldWrite = MetafieldWrite(namespace: string, key: string, value: string, valueType: string)

  /** The body of the product update: the new `body_html` and the three
      metadata entries. */
  datatype ProductUpdate = ProductUpdate(bodyHtml: string, metafields: seq<MetafieldWrite>)

  /** The update for rendered texts: the rendered description, or the
      original `body_html` when it rendered empty, and the meta
      description, the page title and the `updated` flag, in that order. */
  function BuildUpdate(description: string, pageTitle: string, metadescription: string,
                       originalBody: string): (u: ProductUpdate)
    ensures u.bodyHtml == (if description == [] then originalBody else description)
    ensures |u.metafields| == 3
    ensures forall w :: w in u.metafields ==> w.namespace == GlobalNamespace && w.valueType == TextFieldType
    ensures u.metafields[0].key == "description_tag" && u.metafields[0].value == metadescription
    ensures u.metafields[1].key == "title_tag" && u.metafields[1].value == pageTitle
    ensures u.metafields[2].key == UpdatedKey && u.metafields[2].value == TrueText
  {
    ProductUpdate(
      if description == [] then originalBody else description,
      [ MetafieldWrite(GlobalNamespace, "description_tag", metadescription, TextFieldType),
        MetafieldWrite(GlobalNamespace, "title_tag", pageTitle, TextFieldType),
        MetafieldWrite(GlobalNamespace, UpdatedKey, TrueText, TextFieldType) ])
  }

  // ---------------------------------------------------------------------
  // The platform's upsert of written metadata entries

  predicate SameKey(m: Metafield, w: MetafieldWrite)
  {
    m.namespace == w.namespace && m.key == w.key
  }

  /** The platform stores a written entry over every entry with the same
      namespace and key, or appends it when there is none. */
  function Upsert(ms: seq<Metafield>, w: MetafieldWrite): (r: seq<Metafield>)
    ensures |ms| <= |r| <= |ms| + 1
    ensures forall i :: 0 <= i < |ms| && !SameKey(ms[i], w) ==> r[i] == ms[i]
    ensures forall i :: 0 <= i < |r| && SameKey(r[i], w) ==> r[i].value == w.value
    ensures exists i :: 0 <= i < |r| && SameKey(r[i], w)
  {
    if exists i :: 0 <= i < |ms| && SameKey(ms[i], w) then
      var r := seq(|ms|, i requires 0 <= i < |ms| => if SameKey(ms[i], w) then ms[i].(value := w.value) else ms[i]);
      var k :| 0 <= k < |ms| && SameKey(ms[k], w);
      assert SameKey(r[k], w);
      r
    else
      var r := ms + [Metafield(w.namespace, w.key, w.value)];
      assert SameKey(r[|ms|], w);
      r
  }

  /** The writes of one request, applied in order: entries that no write
      names keep their place and value. */
  function ApplyWrites(ms: seq<Metafield>, ws: seq<MetafieldWrite>): (r: seq<Metafield>)
    ensures |ms| <= |r|
    ensures forall i :: 0 <= i < |ms| && (forall k :: 0 <= k < |ws| ==> !SameKey(ms[i], ws[k])) ==> r[i] == ms[i]
    decreases |ws|
  {
    if ws == [] then ms else ApplyWrites(Upsert(ms, ws[0]), ws[1..])
  }

  /** Writing `updated` = `true` makes the gate skip, whatever was stored. */
  lemma UpsertFlagSkips(ms: seq<Metafield>, w: MetafieldWrite)
    requires w.namespace == GlobalNamespace && w.key == UpdatedKey && w.value == TrueText
    ensures AlreadyUpdated(Upsert(ms, w))
  {
    var after := Upsert(ms, w);
    match FindUpdatedFlag(ms)
    case Some(k) =>
      assert SameKey(ms[k], w);
      assert FirstFlagAt(after, k);
    case None =>
      assert FirstFlagAt(after, |ms|);
  }

  /** Once the update is stored, the gate skips every later delivery: the
      product is rewritten at most once. */
  lemma UpdateMarksProduct(ms: seq<Metafield>, description: string, pageTitle: string,
                           metadescription: string, originalBody: string)
    ensures AlreadyUpdated(ApplyWrites(ms, BuildUpdate(description, pageTitle, metadescription, originalBody).metafields))
  {
    var ws := BuildUpdate(description, pageTitle, metadescription, originalBody).metafields;
    var ms2 := Upsert(Upsert(ms, ws[0]), ws[1]);
    assert ws[1..][1..] == [ws[2]];
    assert ApplyWrites(ms, ws) == ApplyWrites(ms2, [ws[2]]) == Upsert(ms2, ws[2]);
    UpsertFlagSkips(ms2, ws[2]);
  }

  lemma ExampleGate()
    ensures AlreadyUpdated([Metafield("global", "updated", "true")])
    ensures !AlreadyUpdated([Metafield("global", "updated", "TRUE")])
    ensures !AlreadyUpdated([Metafield("global", "updated", "false"), Metafield("global", "updated", "true")])
    ensures !AlreadyUpdated([Metafield("custom", "updated", "true")])
    ensures !AlreadyUpdated([])
  {
    var a := [Metafield("global", "updated", "false"), Metafield("global", "updated", "true")];
    FirstFlagDecides(a, 0);
    assert !IsUpdatedFlag(Metafield("custom", "updated", "true"));
  }
}
