// A shared document as Yjs keeps it, tombstones included, and the replacement
// of its block list by another document's.
module YDocument {
  import opened Prelude

  // Who created an item, and as how many-eth of its items.
  datatype ItemId = ItemId(client: nat, clock: nat)

  datatype Char = Char(id: ItemId, ch: char)

  // What a block holds under a key: shared text, or a plain value.
  datatype Value = Text(chars: seq<Char>) | Bool(b: bool) | Num(n: int) | Str(s: string) | Null

  datatype Entry = Entry(key: string, value: Value)

  datatype Block = Block(id: ItemId, entries: seq<Entry>)

  // Nothing is ever taken out: deleting an item only adds its id to `deleted`.
  datatype YDoc = YDoc(blocks: seq<Block>, deleted: seq<ItemId>)

  const EMPTY_DOC := YDoc([], [])

  // ----- what a reader sees -----

  function Shown(chars: seq<Char>, deleted: seq<ItemId>): string {
    if chars == [] then ""
    else (if chars[0].id in deleted then "" else [chars[0].ch]) + Shown(chars[1..], deleted)
  }

  function Visible(blocks: seq<Block>, deleted: seq<ItemId>): seq<Block> {
    if blocks == [] then []
    else (if blocks[0].id in deleted then [] else [blocks[0]]) + Visible(blocks[1..], deleted)
  }

  datatype Plain = PlainText(text: string) | PlainValue(value: Value)

  function PlainOf(v: Value, deleted: seq<ItemId>): Plain {
    if v.Text? then PlainText(Shown(v.chars, deleted)) else PlainValue(v)
  }

  function ViewEntries(entries: seq<Entry>, deleted: seq<ItemId>): (r: seq<(string, Plain)>)
    ensures |r| == |entries|
    ensures forall i :: 0 <= i < |r| ==> r[i] == (entries[i].key, PlainOf(entries[i].value, deleted))
  {
    seq(|entries|, i requires 0 <= i < |entries| => (entries[i].key, PlainOf(entries[i].value, deleted)))
  }

  function ViewBlocks(blocks: seq<Block>, deleted: seq<ItemId>): (r: seq<seq<(string, Plain)>>)
    ensures |r| == |blocks|
    ensures forall i :: 0 <= i < |r| ==> r[i] == ViewEntries(blocks[i].entries, deleted)
  {
    seq(|blocks|, i requires 0 <= i < |blocks| => ViewEntries(blocks[i].entries, deleted))
  }

  /** Every key of every visible block, with what a reader sees there. */
  function View(doc: YDoc): seq<seq<(string, Plain)>> {
    ViewBlocks(Visible(doc.blocks, doc.deleted), doc.deleted)
  }

  // ----- the preview of a version -----

  // Served as JSON, where shared text is its visible characters.
  datatype PlainBlock = PlainBlock(
    id: Option<Plain>,
    kind: Option<Plain>,
    text: Option<string>,
    checked: Option<bool>,
    level: Option<Plain>,
    language: Option<Plain>,
    imageUrl: Option<Plain>,
    imageAlt: Option<Plain>)

  function Get(entries: seq<Entry>, key: string): Option<Value> {
    if entries == [] then None
    else if entries[0].key == key then Some(entries[0].value)
    else Get(entries[1..], key)
  }

  predicate Truthy(v: Value) {
    match v
    case Bool(b) => b
    case Num(n) => n != 0
    case Str(s) => s != ""
    case Null => false
    case Text(_) => true
  }

  function GetPlain(entries: seq<Entry>, deleted: seq<ItemId>, key: string): Option<Plain> {
    var value := Get(entries, key);
    if value.Some? then Some(PlainOf(value.value, deleted)) else None
  }

  /** `text` is shown only if it is shared text, `checked` as a boolean, every other key as it is. */
  function EncodeBlock(entries: seq<Entry>, deleted: seq<ItemId>): PlainBlock {
    var text := Get(entries, "text");
    var checked := Get(entries, "checked");
    PlainBlock(
      GetPlain(entries, deleted, "id"),
      GetPlain(entries, deleted, "type"),
      if text.Some? && text.value.Text? then Some(Shown(text.value.chars, deleted)) else None,
      if checked.Some? then Some(Truthy(checked.value)) else None,
      GetPlain(entries, deleted, "level"),
      GetPlain(entries, deleted, "language"),
      GetPlain(entries, deleted, "imageUrl"),
      GetPlain(entries, deleted, "imageAlt"))
  }

  function EncodeBlocksSnapshot(doc: YDoc): (r: seq<PlainBlock>)
    ensures |r| == |Visible(doc.blocks, doc.deleted)|
    ensures forall i :: 0 <= i < |r| ==> r[i] == EncodeBlock(Visible(doc.blocks, doc.deleted)[i].entries, doc.deleted)
  {
    var blocks := Visible(doc.blocks, doc.deleted);
    seq(|blocks|, i requires 0 <= i < |blocks| => EncodeBlock(blocks[i].entries, doc.deleted))
  }

  lemma {:induction false} GetOfView(a: seq<Entry>, b: seq<Entry>, da: seq<ItemId>, db: seq<ItemId>, key: string)
    requires ViewEntries(a, da) == ViewEntries(b, db)
    ensures Get(a, key).Some? == Get(b, key).Some?
    ensures Get(a, key).Some? ==> PlainOf(Get(a, key).value, da) == PlainOf(Get(b, key).value, db)
    decreases |a|
  {
    assert |a| == |ViewEntries(b, db)| == |b|;
    if a != [] {
      assert ViewEntries(a, da)[0] == ViewEntries(b, db)[0];
      assert ViewEntries(a[1..], da) == ViewEntries(a, da)[1..];
      assert ViewEntries(b[1..], db) == ViewEntries(b, db)[1..];
      GetOfView(a[1..], b[1..], da, db, key);
    }
  }

  lemma EncodeOfView(a: seq<Entry>, b: seq<Entry>, da: seq<ItemId>, db: seq<ItemId>)
    requires ViewEntries(a, da) == ViewEntries(b, db)
    ensures EncodeBlock(a, da) == EncodeBlock(b, db)
  {
    forall key ensures GetPlain(a, da, key) == GetPlain(b, db, key) { GetOfView(a, b, da, db, key); }
    GetOfView(a, b, da, db, "text");
    GetOfView(a, b, da, db, "checked");
  }

  /** A map holds one value a key. */
  predicate DistinctKeys(entries: seq<Entry>) {
    forall i, j :: 0 <= i < j < |entries| ==> entries[i].key != entries[j].key
  }

  lemma {:induction false} GetExactly(entries: seq<Entry>, key: string)
    requires DistinctKeys(entries)
    ensures forall e :: e in entries && e.key == key ==> Get(entries, key) == Some(e.value)
    ensures (forall e :: e in entries ==> e.key != key) ==> Get(entries, key) == None
    decreases |entries|
  {
    if entries != [] {
      GetExactly(entries[1..], key);
      forall e | e in entries && e.key == key ensures Get(entries, key) == Some(e.value) {
        var i :| 0 <= i < |entries| && entries[i] == e;
        assert i > 0 ==> entries[0].key != entries[i].key && e == entries[1..][i - 1];
      }
    }
  }

  /** A field that shows any value under its key. */
  predicate ShowsKey(field: Option<Plain>, entries: seq<Entry>, deleted: seq<ItemId>, key: string) {
    && (forall e :: e in entries && e.key == key ==> field == Some(PlainOf(e.value, deleted)))
    && ((forall e :: e in entries ==> e.key != key) ==> field == None)
  }

  lemma PlainExactly(entries: seq<Entry>, deleted: seq<ItemId>, key: string)
    requires DistinctKeys(entries)
    ensures ShowsKey(GetPlain(entries, deleted, key), entries, deleted, key)
  {
    GetExactly(entries, key);
  }

  /** Which key of a block each field of its preview shows. */
  lemma EncodeExactly(entries: seq<Entry>, deleted: seq<ItemId>)
    requires DistinctKeys(entries)
    ensures var p := EncodeBlock(entries, deleted);
            && ShowsKey(p.id, entries, deleted, "id") && ShowsKey(p.kind, entries, deleted, "type")
            && ShowsKey(p.level, entries, deleted, "level") && ShowsKey(p.language, entries, deleted, "language")
            && ShowsKey(p.imageUrl, entries, deleted, "imageUrl") && ShowsKey(p.imageAlt, entries, deleted, "imageAlt")
  {
    PlainExactly(entries, deleted, "id");
    PlainExactly(entries, deleted, "type");
    PlainExactly(entries, deleted, "level");
    PlainExactly(entries, deleted, "language");
    PlainExactly(entries, deleted, "imageUrl");
    PlainExactly(entries, deleted, "imageAlt");
  }

  /** Its text is shown only if it is shared text, and then by its visible characters. */
  lemma EncodeTextExactly(entries: seq<Entry>, deleted: seq<ItemId>)
    requires DistinctKeys(entries)
    ensures forall e :: e in entries && e.key == "text" ==>
              EncodeBlock(entries, deleted).text == if e.value.Text? then Some(Shown(e.value.chars, deleted)) else None
    ensures (forall e :: e in entries ==> e.key != "text") ==> EncodeBlock(entries, deleted).text == None
  {
    GetExactly(entries, "text");
  }

  /** Whether it is checked is shown as a boolean, of whatever value is there. */
  lemma EncodeCheckedExactly(entries: seq<Entry>, deleted: seq<ItemId>)
    requires DistinctKeys(entries)
    ensures forall e :: e in entries && e.key == "checked" ==>
              EncodeBlock(entries, deleted).checked == Some(!(e.value in {Bool(false), Num(0), Str(""), Null}))
    ensures (forall e :: e in entries ==> e.key != "checked") ==> EncodeBlock(entries, deleted).checked == None
  {
    GetExactly(entries, "checked");
  }

  lemma {:induction false} VisibleWithin(blocks: seq<Block>, deleted: seq<ItemId>)
    ensures forall b :: b in Visible(blocks, deleted) <==> b in blocks && b.id !in deleted
  {
    if blocks != [] { VisibleWithin(blocks[1..], deleted); }
  }

  /** The preview depends only on what a reader sees. */
  lemma SnapshotOfView(a: YDoc, b: YDoc)
    requires View(a) == View(b)
    ensures EncodeBlocksSnapshot(a) == EncodeBlocksSnapshot(b)
  {
    var va, vb := Visible(a.blocks, a.deleted), Visible(b.blocks, b.deleted);
    assert |va| == |View(a)| == |vb|;
    forall i | 0 <= i < |va|
      ensures EncodeBlocksSnapshot(a)[i] == EncodeBlocksSnapshot(b)[i]
    {
      assert View(a)[i] == View(b)[i];
      EncodeOfView(va[i].entries, vb[i].entries, a.deleted, b.deleted);
    }
  }

  // ----- items and operations -----

  function CharIds(chars: seq<Char>): (r: seq<ItemId>)
    ensures |r| == |chars|
    ensures forall i :: 0 <= i < |r| ==> r[i] == chars[i].id
  {
    seq(|chars|, i requires 0 <= i < |chars| => chars[i].id)
  }

  function ValueIds(v: Value): seq<ItemId> {
    if v.Text? then CharIds(v.chars) else []
  }

  function EntryIds(entries: seq<Entry>): seq<ItemId> {
    if entries == [] then [] else ValueIds(entries[0].value) + EntryIds(entries[1..])
  }

  function BlockIds(b: Block): seq<ItemId> {
    [b.id] + EntryIds(b.entries)
  }

  function Ids(blocks: seq<Block>): seq<ItemId> {
    if blocks == [] then [] else BlockIds(blocks[0]) + Ids(blocks[1..])
  }

  datatype Operation =
    | AddBlock(id: ItemId)
    | SetKey(block: ItemId, key: string, value: Value)
    | AddChar(block: ItemId, key: string, added: Char)
    | Delete(id: ItemId)

  ghost function BlockOps(b: Block): set<Operation> {
    {AddBlock(b.id)}
    + (set e | e in b.entries && !e.value.Text? :: SetKey(b.id, e.key, e.value))
    + (set e, c | e in b.entries && e.value.Text? && c in e.value.chars :: AddChar(b.id, e.key, c))
  }

  /** The set of operations an encoded document carries. */
  ghost function Operations(doc: YDoc): set<Operation> {
    (set b, op | b in doc.blocks && op in BlockOps(b) :: op) + (set id | id in doc.deleted :: Delete(id))
  }

  /** The first clock of client `me` that none of `ids` uses. */
  function Clock(ids: seq<ItemId>, me: nat): (c: nat)
    ensures forall id :: id in ids && id.client == me ==> id.clock < c
  {
    if ids == [] then 0
    else
      var rest := Clock(ids[1..], me);
      if ids[0].client == me && ids[0].clock >= rest then ids[0].clock + 1 else rest
  }

  function NextClock(doc: YDoc, me: nat): nat {
    Clock(Ids(doc.blocks) + doc.deleted, me)
  }

  // ----- cloning -----

  /** Fresh text holding `text`. */
  function NewText(text: string, me: nat, clock: nat): (r: seq<Char>)
    ensures |r| == |text|
    ensures forall i :: 0 <= i < |r| ==> r[i] == Char(ItemId(me, clock + i), text[i])
  {
    seq(|text|, i requires 0 <= i < |text| => Char(ItemId(me, clock + i), text[i]))
  }

  function CloneValue(v: Value, deleted: seq<ItemId>, me: nat, clock: nat): Value {
    if v.Text? then Text(NewText(Shown(v.chars, deleted), me, clock)) else v
  }

  function ValueSize(v: Value, deleted: seq<ItemId>): nat {
    if v.Text? then |Shown(v.chars, deleted)| else 0
  }

  function CloneEntries(entries: seq<Entry>, deleted: seq<ItemId>, me: nat, clock: nat): seq<Entry> {
    if entries == [] then []
    else
      [Entry(entries[0].key, CloneValue(entries[0].value, deleted, me, clock))]
      + CloneEntries(entries[1..], deleted, me, clock + ValueSize(entries[0].value, deleted))
  }

  function EntriesSize(entries: seq<Entry>, deleted: seq<ItemId>): nat {
    if entries == [] then 0 else ValueSize(entries[0].value, deleted) + EntriesSize(entries[1..], deleted)
  }

  function CloneBlocks(blocks: seq<Block>, deleted: seq<ItemId>, me: nat, clock: nat): seq<Block> {
    if blocks == [] then []
    else
      [Block(ItemId(me, clock), CloneEntries(blocks[0].entries, deleted, me, clock + 1))]
      + CloneBlocks(blocks[1..], deleted, me, clock + 1 + EntriesSize(blocks[0].entries, deleted))
  }

  function BlocksSize(blocks: seq<Block>, deleted: seq<ItemId>): nat {
    if blocks == [] then 0 else 1 + EntriesSize(blocks[0].entries, deleted) + BlocksSize(blocks[1..], deleted)
  }

  /** Everything visible is deleted, then clones of the source's visible blocks go in front. */
  function Replaced(target: YDoc, source: YDoc, me: nat): YDoc {
    YDoc(
      CloneBlocks(Visible(source.blocks, source.deleted), source.deleted, me, NextClock(target, me)) + target.blocks,
      target.deleted + Ids(Visible(target.blocks, target.deleted)))
  }

  /** `me` has deleted nothing it is still to create. */
  predicate Unused(deleted: seq<ItemId>, me: nat, clock: nat) {
    forall id :: id in deleted && id.client == me ==> id.clock < clock
  }

  /** `n` consecutive ids. */
  function Range(me: nat, clock: nat, n: nat): (r: seq<ItemId>)
    ensures |r| == n
    ensures forall i :: 0 <= i < n ==> r[i] == ItemId(me, clock + i)
  {
    seq(n, i requires 0 <= i < n => ItemId(me, clock + i))
  }

  lemma {:induction false} NewTextShows(chars: seq<Char>, deleted: seq<ItemId>)
    requires forall c :: c in chars ==> c.id !in deleted
    ensures |Shown(chars, deleted)| == |chars|
    ensures forall i :: 0 <= i < |chars| ==> Shown(chars, deleted)[i] == chars[i].ch
  {
    if chars != [] { NewTextShows(chars[1..], deleted); }
  }

  lemma CloneValueShows(v: Value, deleted: seq<ItemId>, deleted': seq<ItemId>, me: nat, clock: nat)
    requires Unused(deleted', me, clock)
    ensures PlainOf(CloneValue(v, deleted, me, clock), deleted') == PlainOf(v, deleted)
  {
    if v.Text? {
      var shown := Shown(v.chars, deleted);
      NewTextShows(NewText(shown, me, clock), deleted');
      assert Shown(NewText(shown, me, clock), deleted') == shown;
    }
  }

  lemma {:induction false} ClonedEntry(entries: seq<Entry>, i: nat, deleted: seq<ItemId>, deleted': seq<ItemId>, me: nat, clock: nat)
    requires Unused(deleted', me, clock) && i < |entries|
    ensures var clones := CloneEntries(entries, deleted, me, clock);
            && |clones| == |entries|
            && clones[i].key == entries[i].key
            && PlainOf(clones[i].value, deleted') == PlainOf(entries[i].value, deleted)
  {
    CloneValueShows(entries[0].value, deleted, deleted', me, clock);
    if |entries| > 1 {
      var next := clock + ValueSize(entries[0].value, deleted);
      ClonedEntry(entries[1..], if i > 0 then i - 1 else 0, deleted, deleted', me, next);
    }
  }

  lemma CloneEntriesShow(entries: seq<Entry>, deleted: seq<ItemId>, deleted': seq<ItemId>, me: nat, clock: nat)
    requires Unused(deleted', me, clock)
    ensures ViewEntries(CloneEntries(entries, deleted, me, clock), deleted') == ViewEntries(entries, deleted)
  {
    forall i | 0 <= i < |entries|
      ensures |CloneEntries(entries, deleted, me, clock)| == |entries|
      ensures ViewEntries(CloneEntries(entries, deleted, me, clock), deleted')[i] == ViewEntries(entries, deleted)[i]
    {
      ClonedEntry(entries, i, deleted, deleted', me, clock);
    }
  }

  lemma {:induction false} ClonedBlock(blocks: seq<Block>, i: nat, deleted: seq<ItemId>, deleted': seq<ItemId>, me: nat, clock: nat)
    requires Unused(deleted', me, clock) && i < |blocks|
    ensures var clones := CloneBlocks(blocks, deleted, me, clock);
            && |clones| == |blocks|
            && clones[i].id.client == me && clones[i].id.clock >= clock
            && ViewEntries(clones[i].entries, deleted') == ViewEntries(blocks[i].entries, deleted)
  {
    CloneEntriesShow(blocks[0].entries, deleted, deleted', me, clock + 1);
    if |blocks| > 1 {
      var next := clock + 1 + EntriesSize(blocks[0].entries, deleted);
      ClonedBlock(blocks[1..], if i > 0 then i - 1 else 0, deleted, deleted', me, next);
    }
  }

  lemma {:induction false} AllVisible(blocks: seq<Block>, deleted: seq<ItemId>)
    requires forall b :: b in blocks ==> b.id !in deleted
    ensures Visible(blocks, deleted) == blocks
  {
    if blocks != [] { AllVisible(blocks[1..], deleted); }
  }

  lemma CloneBlocksShow(blocks: seq<Block>, deleted: seq<ItemId>, deleted': seq<ItemId>, me: nat, clock: nat)
    requires Unused(deleted', me, clock)
    ensures var clones := CloneBlocks(blocks, deleted, me, clock);
            Visible(clones, deleted') == clones && ViewBlocks(clones, deleted') == ViewBlocks(blocks, deleted)
  {
    var clones := CloneBlocks(blocks, deleted, me, clock);
    if blocks != [] { ClonedBlock(blocks, 0, deleted, deleted', me, clock); }
    forall i | 0 <= i < |clones|
      ensures clones[i].id !in deleted'
      ensures ViewBlocks(clones, deleted')[i] == ViewBlocks(blocks, deleted)[i]
    {
      ClonedBlock(blocks, i, deleted, deleted', me, clock);
    }
    AllVisible(clones, deleted');
  }

  lemma {:induction false} VisibleConcat(a: seq<Block>, b: seq<Block>, deleted: seq<ItemId>)
    ensures Visible(a + b, deleted) == Visible(a, deleted) + Visible(b, deleted)
  {
    if a == [] {
      assert a + b == b;
    } else {
      assert (a + b)[1..] == a[1..] + b;
      VisibleConcat(a[1..], b, deleted);
    }
  }

  lemma {:induction false} IdsOfMembers(blocks: seq<Block>)
    ensures forall b :: b in blocks ==> b.id in Ids(blocks)
  {
    if blocks != [] { IdsOfMembers(blocks[1..]); }
  }

  lemma {:induction false} NothingVisible(blocks: seq<Block>, deleted: seq<ItemId>)
    requires forall b :: b in blocks ==> b.id in deleted
    ensures Visible(blocks, deleted) == []
  {
    if blocks != [] { NothingVisible(blocks[1..], deleted); }
  }

  lemma {:induction false} VisibleIds(blocks: seq<Block>, deleted: seq<ItemId>)
    ensures forall id :: id in Ids(Visible(blocks, deleted)) ==> id in Ids(blocks)
  {
    if blocks != [] {
      VisibleIds(blocks[1..], deleted);
      var rest := Visible(blocks[1..], deleted);
      var own := BlockIds(blocks[0]);
      assert Ids(blocks) == own + Ids(blocks[1..]);
      if blocks[0].id !in deleted {
        assert ([blocks[0]] + rest)[1..] == rest;
        assert Ids(Visible(blocks, deleted)) == own + Ids(rest);
      } else {
        assert Visible(blocks, deleted) == rest;
      }
    }
  }

  /** After a replacement a reader sees exactly the source. */
  lemma ReplacedView(target: YDoc, source: YDoc, me: nat)
    ensures View(Replaced(target, source, me)) == View(source)
  {
    var clock := NextClock(target, me);
    var shown := Visible(source.blocks, source.deleted);
    var clones := CloneBlocks(shown, source.deleted, me, clock);
    var gone := Ids(Visible(target.blocks, target.deleted));
    var deleted' := target.deleted + gone;
    VisibleIds(target.blocks, target.deleted);
    assert forall id :: id in deleted' ==> id in Ids(target.blocks) + target.deleted;
    assert Unused(deleted', me, clock);
    CloneBlocksShow(shown, source.deleted, deleted', me, clock);
    VisibleConcat(clones, target.blocks, deleted');
    VisibleWithin(target.blocks, target.deleted);
    IdsOfMembers(Visible(target.blocks, target.deleted));
    NothingVisible(target.blocks, deleted');
  }

  /** No operation is taken back, and nothing but what was visible is newly deleted. */
  lemma ReplacedGrows(target: YDoc, source: YDoc, me: nat)
    ensures Operations(target) <= Operations(Replaced(target, source, me))
    ensures forall id :: Delete(id) in Operations(Replaced(target, source, me)) - Operations(target) ==>
              id in Ids(Visible(target.blocks, target.deleted))
  {
    var after := Replaced(target, source, me);
    forall op | op in Operations(target) ensures op in Operations(after) {
      if !op.Delete? {
        var b :| b in target.blocks && op in BlockOps(b);
        assert b in after.blocks;
      }
    }
  }

  // ----- the clones' ids are new and distinct -----

  lemma RangeJoin(me: nat, clock: nat, m: nat, n: nat)
    ensures Range(me, clock, m) + Range(me, clock + m, n) == Range(me, clock, m + n)
  {
  }

  lemma {:induction false} CloneEntriesIds(entries: seq<Entry>, deleted: seq<ItemId>, me: nat, clock: nat)
    ensures EntryIds(CloneEntries(entries, deleted, me, clock)) == Range(me, clock, EntriesSize(entries, deleted))
  {
    if entries != [] {
      var size := ValueSize(entries[0].value, deleted);
      var clones := CloneEntries(entries, deleted, me, clock);
      CloneEntriesIds(entries[1..], deleted, me, clock + size);
      assert clones[1..] == CloneEntries(entries[1..], deleted, me, clock + size);
      assert EntryIds(clones) == ValueIds(clones[0].value) + EntryIds(clones[1..]);
      assert ValueIds(clones[0].value) == Range(me, clock, size);
      RangeJoin(me, clock, size, EntriesSize(entries[1..], deleted));
    }
  }

  lemma CloneBlockIds(b: Block, deleted: seq<ItemId>, me: nat, clock: nat)
    ensures BlockIds(Block(ItemId(me, clock), CloneEntries(b.entries, deleted, me, clock + 1)))
         == Range(me, clock, 1 + EntriesSize(b.entries, deleted))
  {
    CloneEntriesIds(b.entries, deleted, me, clock + 1);
    assert [ItemId(me, clock)] == Range(me, clock, 1);
    RangeJoin(me, clock, 1, EntriesSize(b.entries, deleted));
  }

  lemma {:induction false} CloneBlocksIds(blocks: seq<Block>, deleted: seq<ItemId>, me: nat, clock: nat)
    ensures Ids(CloneBlocks(blocks, deleted, me, clock)) == Range(me, clock, BlocksSize(blocks, deleted))
  {
    if blocks != [] {
      var size := 1 + EntriesSize(blocks[0].entries, deleted);
      var clones := CloneBlocks(blocks, deleted, me, clock);
      CloneBlockIds(blocks[0], deleted, me, clock);
      CloneBlocksIds(blocks[1..], deleted, me, clock + size);
      assert clones[1..] == CloneBlocks(blocks[1..], deleted, me, clock + size);
      assert Ids(clones) == BlockIds(clones[0]) + Ids(clones[1..]);
      RangeJoin(me, clock, size, BlocksSize(blocks[1..], deleted));
    }
  }

  lemma {:induction false} IdsConcat(a: seq<Block>, b: seq<Block>)
    ensures Ids(a + b) == Ids(a) + Ids(b)
  {
    if a == [] {
      assert a + b == b;
    } else {
      assert (a + b)[1..] == a[1..] + b;
      IdsConcat(a[1..], b);
    }
  }

  /** Items keep distinct ids, so other copies of the document can merge the change. */
  lemma ReplacedIdsDistinct(target: YDoc, source: YDoc, me: nat)
    requires NoDuplicates(Ids(target.blocks))
    ensures NoDuplicates(Ids(Replaced(target, source, me).blocks))
  {
    var shown := Visible(source.blocks, source.deleted);
    var clock := NextClock(target, me);
    var clones := CloneBlocks(shown, source.deleted, me, clock);
    CloneBlocksIds(shown, source.deleted, me, clock);
    IdsConcat(clones, target.blocks);
    var a, b := Ids(clones), Ids(target.blocks);
    forall i, j | 0 <= i < |a| && 0 <= j < |b| ensures a[i] != b[j] {
      assert b[j] in b + target.deleted;
    }
  }

  // ----- in place -----

  lemma OneMoreClone(entries: seq<Entry>, deleted: seq<ItemId>, me: nat, clock: nat)
    requires entries != []
    ensures CloneEntries(entries, deleted, me, clock) ==
            [Entry(entries[0].key, CloneValue(entries[0].value, deleted, me, clock))]
            + CloneEntries(entries[1..], deleted, me, clock + ValueSize(entries[0].value, deleted))
    ensures EntriesSize(entries, deleted) == ValueSize(entries[0].value, deleted) + EntriesSize(entries[1..], deleted)
  {
  }

  /** Clones one block, entry by entry; `next` is the first clock left over. */
  method CloneBlock(source: Block, deleted: seq<ItemId>, me: nat, clock: nat) returns (clone: Block, next: nat)
    ensures clone == Block(ItemId(me, clock), CloneEntries(source.entries, deleted, me, clock + 1))
    ensures next == clock + 1 + EntriesSize(source.entries, deleted)
  {
    var entries := [];
    next := clock + 1;
    for i := 0 to |source.entries|
      invariant next + EntriesSize(source.entries[i..], deleted) == clock + 1 + EntriesSize(source.entries, deleted)
      invariant entries + CloneEntries(source.entries[i..], deleted, me, next)
             == CloneEntries(source.entries, deleted, me, clock + 1)
    {
      var e := source.entries[i];
      OneMoreClone(source.entries[i..], deleted, me, next);
      assert source.entries[i..][0] == e && source.entries[i..][1..] == source.entries[i + 1..];
      var value := e.value;
      if e.value.Text? {
        var text := Shown(e.value.chars, deleted);
        value := Text(NewText(text, me, next));
        next := next + |text|;
      }
      entries := entries + [Entry(e.key, value)];
    }
    clone := Block(ItemId(me, clock), entries);
  }

  method CloneVisible(source: YDoc, me: nat, start: nat) returns (clones: seq<Block>)
    ensures clones == CloneBlocks(Visible(source.blocks, source.deleted), source.deleted, me, start)
  {
    var shown, clock := Visible(source.blocks, source.deleted), start;
    clones := [];
    for i := 0 to |shown|
      invariant clones + CloneBlocks(shown[i..], source.deleted, me, clock)
             == CloneBlocks(shown, source.deleted, me, start)
    {
      assert shown[i..][1..] == shown[i + 1..];
      var clone;
      clone, clock := CloneBlock(shown[i], source.deleted, me, clock);
      clones := clones + [clone];
    }
  }

  // The server's live copy, changed in place.
  class LiveDocument {
    var doc: YDoc
    const me: nat

    constructor (doc: YDoc, me: nat)
      ensures this.doc == doc && this.me == me
    {
      this.doc := doc;
      this.me := me;
    }

    method ReplaceBlocksContent(source: YDoc)
      modifies this
      ensures doc == Replaced(old(doc), source, me)
    {
      var clones := CloneVisible(source, me, NextClock(doc, me));
      doc := doc.(deleted := doc.deleted + Ids(Visible(doc.blocks, doc.deleted)));
      doc := doc.(blocks := clones + doc.blocks);
    }
  }
}
