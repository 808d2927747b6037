/**
  Static-data placement: one entry per code relocation whose symbol is
  static, in relocation order and with duplicates kept; each entry's bytes
  are copied to the cursor and every static relocation naming the same
  symbol index is patched to reach that copy.
 */
module Statics {
  import opened Wrappers
  import opened Bytes
  import opened Memory
  import opened Coff

  /** `staticSymbols`: the symbol of every relocation whose symbol is
      static, in relocation order. */
  function StaticEntries(obj: ObjectFile, relocs: seq<Relocation>): (es: seq<nat>)
    requires SymbolsResolve(obj, relocs)
    ensures |es| <= |relocs|
    ensures forall i :: 0 <= i < |es| ==> es[i] < |obj.symbols| && obj.symbols[es[i]].storageClass == SymClassStatic
  {
    if relocs == [] then []
    else
      var init := relocs[..|relocs| - 1];
      var last := relocs[|relocs| - 1];
      assert forall k :: 0 <= k < |init| ==> init[k] == relocs[k];
      StaticEntries(obj, init) + if IsStatic(obj, last) then [last.symbol] else []
  }

  /** Every static relocation's symbol is among the entries. */
  lemma {:induction false} StaticEntriesCover(obj: ObjectFile, relocs: seq<Relocation>)
    requires SymbolsResolve(obj, relocs)
    ensures forall k :: 0 <= k < |relocs| && IsStatic(obj, relocs[k]) ==> relocs[k].symbol in StaticEntries(obj, relocs)
  {
    if relocs != [] {
      var init := relocs[..|relocs| - 1];
      assert forall k :: 0 <= k < |init| ==> init[k] == relocs[k];
      StaticEntriesCover(obj, init);
    }
  }

  /** The number of relocations whose symbol is static. */
  function CountStatic(obj: ObjectFile, relocs: seq<Relocation>): nat
    requires SymbolsResolve(obj, relocs)
  {
    if relocs == [] then 0
    else
      var init := relocs[..|relocs| - 1];
      assert forall k :: 0 <= k < |init| ==> init[k] == relocs[k];
      CountStatic(obj, init) + if IsStatic(obj, relocs[|relocs| - 1]) then 1 else 0
  }

  /** One entry per static relocation, in relocation order and with
      duplicates kept: the static relocation `k` contributes the entry right
      after those of the static relocations before it. */
  lemma {:induction false} StaticEntriesOrder(obj: ObjectFile, relocs: seq<Relocation>)
    requires SymbolsResolve(obj, relocs)
    ensures |StaticEntries(obj, relocs)| == CountStatic(obj, relocs)
    ensures forall k :: 0 <= k < |relocs| && IsStatic(obj, relocs[k]) ==>
      CountStatic(obj, relocs[..k]) < |StaticEntries(obj, relocs)| &&
      StaticEntries(obj, relocs)[CountStatic(obj, relocs[..k])] == relocs[k].symbol
  {
    if relocs != [] {
      var n := |relocs| - 1;
      var init := relocs[..n];
      assert forall k :: 0 <= k < |init| ==> init[k] == relocs[k];
      StaticEntriesOrder(obj, init);
      forall k | 0 <= k < |relocs| && IsStatic(obj, relocs[k])
        ensures CountStatic(obj, relocs[..k]) < |StaticEntries(obj, relocs)|
        ensures StaticEntries(obj, relocs)[CountStatic(obj, relocs[..k])] == relocs[k].symbol
      {
        if k < n {
          assert relocs[..k] == init[..k];
        } else {
          assert relocs[..k] == init;
        }
      }
    }
  }

  /** The loop that fills `staticSymbols` with `push_back`. */
  method CollectStaticSymbols(obj: ObjectFile, relocs: seq<Relocation>) returns (entries: seq<nat>)
    requires SymbolsResolve(obj, relocs)
    ensures entries == StaticEntries(obj, relocs)
  {
    entries := [];
    for i := 0 to |relocs|
      invariant entries == StaticEntries(obj, relocs[..i])
    {
      assert relocs[..i + 1][..i] == relocs[..i];
      if IsStatic(obj, relocs[i]) {
        entries := entries + [relocs[i].symbol];
      }
    }
    assert relocs[..|relocs|] == relocs;
  }

  /** Entry `i` names a symbol whose section exists and, unless it is the
      last entry, a symbol that has a successor in the table. */
  predicate EntryDefined(obj: ObjectFile, es: seq<nat>, i: nat)
  {
    i < |es| && es[i] < |obj.symbols| &&
    1 <= obj.symbols[es[i]].sectionNumber <= |obj.sections| &&
    (i + 1 < |es| ==> es[i] + 1 < |obj.symbols|)
  }

  /** `sections[s->get_section_number() - 1]`. */
  function EntrySection(obj: ObjectFile, es: seq<nat>, i: nat): Section
    requires EntryDefined(obj, es, i)
  {
    obj.sections[obj.symbols[es[i]].sectionNumber - 1]
  }

  /** `dataSize`: for the last entry the rest of its section from its
      value; otherwise the value of the next symbol-table entry minus its
      own value. */
  function EntrySize(obj: ObjectFile, es: seq<nat>, i: nat): int
    requires EntryDefined(obj, es, i)
  {
    var s := obj.symbols[es[i]];
    if i == |es| - 1 then |EntrySection(obj, es, i).data| - s.value
    else obj.symbols[es[i] + 1].value - s.value
  }

  /** The size of entry `i` is not negative (so the `uint32_t` does not
      wrap) and its bytes lie inside its section. */
  predicate EntryPlaceable(obj: ObjectFile, es: seq<nat>, i: nat)
  {
    EntryDefined(obj, es, i) && 0 <= EntrySize(obj, es, i) &&
    obj.symbols[es[i]].value + EntrySize(obj, es, i) <= |EntrySection(obj, es, i).data|
  }

  predicate EntriesPlaceable(obj: ObjectFile, es: seq<nat>)
  {
    forall i :: 0 <= i < |es| ==> EntryPlaceable(obj, es, i)
  }

  /** The bytes copied for entry `i`: `dataSize` bytes of its section,
      from its value on. */
  function EntryBytes(obj: ObjectFile, es: seq<nat>, i: nat): (bs: seq<Byte>)
    requires EntryPlaceable(obj, es, i)
    ensures |bs| == EntrySize(obj, es, i)
  {
    var value := obj.symbols[es[i]].value;
    EntrySection(obj, es, i).data[value..value + EntrySize(obj, es, i)]
  }

  /** The total size of the first `k` entries. */
  function SizeSum(obj: ObjectFile, es: seq<nat>, k: nat): nat
    requires EntriesPlaceable(obj, es) && k <= |es|
  {
    if k == 0 then 0
    else
      assert EntryPlaceable(obj, es, k - 1);
      SizeSum(obj, es, k - 1) + EntrySize(obj, es, k - 1)
  }

  /** How far past the starting cursor entry `k` is placed: the total size
      of the entries before it.
      It is a separate, non-recursive name for `SizeSum` so that the facts
      stated about it do not unfold the recursion where they feed
      offsets and displacements, which keeps those proofs small. */
  function Span(obj: ObjectFile, es: seq<nat>, k: nat): nat
    requires EntriesPlaceable(obj, es) && k <= |es|
  {
    SizeSum(obj, es, k)
  }

  lemma {:induction false} SpanMonotone(obj: ObjectFile, es: seq<nat>, j: nat, k: nat)
    requires EntriesPlaceable(obj, es) && j <= k <= |es|
    ensures Span(obj, es, j) <= Span(obj, es, k)
    decreases k - j
  {
    if j < k {
      assert EntryPlaceable(obj, es, k - 1);
      SpanMonotone(obj, es, j, k - 1);
    }
  }

  /** Relocation `r` is static and names symbol index `idx`. */
  predicate Refers(obj: ObjectFile, r: Relocation, idx: nat)
    requires r.symbol < |obj.symbols|
  {
    IsStatic(obj, r) && obj.symbols[r.symbol].index == idx
  }

  /** `img` after the first `k` relocations are visited and each static one
      naming `idx` is patched to reach `target`. */
  function PatchReferences(img: seq<Byte>, obj: ObjectFile, relocs: seq<Relocation>, idx: nat, target: int, k: nat)
      : (r: seq<Byte>)
    requires k <= |relocs| && SymbolsResolve(obj, relocs) && FieldsBelow(relocs, |img|)
    ensures |r| == |img|
  {
    if k == 0 then img
    else
      var prev := PatchReferences(img, obj, relocs, idx, target, k - 1);
      if Refers(obj, relocs[k - 1], idx) then PatchRel32(prev, relocs[k - 1].virtualAddress, target) else prev
  }

  /** The inner loop over all relocations of the code section. */
  method PatchStaticSites(image: array<Byte>, obj: ObjectFile, relocs: seq<Relocation>, idx: nat, target: int)
    requires SymbolsResolve(obj, relocs) && FieldsBelow(relocs, image.Length)
    modifies image
    ensures image[..] == PatchReferences(old(image[..]), obj, relocs, idx, target, |relocs|)
  {
    for i := 0 to |relocs|
      invariant image[..] == PatchReferences(old(image[..]), obj, relocs, idx, target, i)
    {
      var r := relocs[i];
      if IsStatic(obj, r) && obj.symbols[r.symbol].index == idx {
        PatchSite(image, r.virtualAddress, target);
      }
    }
  }

  /** Relocations are well formed, entries placeable, and all entries fit
      after the cursor. */
  predicate StaticsFit(st: Image, obj: ObjectFile, relocs: seq<Relocation>, es: seq<nat>)
  {
    SymbolsResolve(obj, relocs) && FieldsBelow(relocs, |st.bytes|) &&
    EntriesPlaceable(obj, es) && st.cursor + Span(obj, es, |es|) <= |st.bytes|
  }

  /** One iteration of the placement loop: copy entry `i` to the cursor,
      patch the relocations naming its symbol index, advance the cursor. */
  function StaticStep(st: Image, obj: ObjectFile, relocs: seq<Relocation>, es: seq<nat>, i: nat): Image
    requires EntryPlaceable(obj, es, i) && SymbolsResolve(obj, relocs) && FieldsBelow(relocs, |st.bytes|)
    requires st.cursor + EntrySize(obj, es, i) <= |st.bytes|
  {
    var copied := WriteAt(st.bytes, st.cursor, EntryBytes(obj, es, i));
    Image(PatchReferences(copied, obj, relocs, obj.symbols[es[i]].index, st.cursor, |relocs|),
          st.cursor + EntrySize(obj, es, i))
  }

  /** The state after the first `k` entries are placed. */
  function PlaceStaticsUpTo(st0: Image, obj: ObjectFile, relocs: seq<Relocation>, es: seq<nat>, k: nat): (st: Image)
    requires StaticsFit(st0, obj, relocs, es) && k <= |es|
    ensures |st.bytes| == |st0.bytes| && st.cursor == st0.cursor + Span(obj, es, k)
  {
    if k == 0 then st0
    else
      var prev := PlaceStaticsUpTo(st0, obj, relocs, es, k - 1);
      SpanMonotone(obj, es, k, |es|);
      StaticStep(prev, obj, relocs, es, k - 1)
  }

  /** One iteration of the placement loop: entry `i` is copied to the
      cursor, the relocations naming its symbol index are patched to reach
      the copy, and the cursor moves past it. */
  method PlaceEntry(image: array<Byte>, cursor: nat, obj: ObjectFile, relocs: seq<Relocation>, es: seq<nat>, i: nat)
      returns (cursor': nat)
    requires EntryPlaceable(obj, es, i) && SymbolsResolve(obj, relocs) && FieldsBelow(relocs, image.Length)
    requires cursor + EntrySize(obj, es, i) <= image.Length
    modifies image
    ensures Image(image[..], cursor') == StaticStep(Image(old(image[..]), cursor), obj, relocs, es, i)
  {
    var s := obj.symbols[es[i]];
    var symbolSection := obj.sections[s.sectionNumber - 1];
    var dataSize: nat;
    if i == |es| - 1 {
      dataSize := |symbolSection.data| - s.value;
    } else {
      dataSize := obj.symbols[es[i] + 1].value - s.value;
    }
    CopyBytes(image, cursor, symbolSection.data[s.value..s.value + dataSize]);
    PatchStaticSites(image, obj, relocs, s.index, cursor);
    cursor' := cursor + dataSize;
  }

  /** The placement loop over `staticSymbols`. */
  method PlaceStatics(image: array<Byte>, cursor0: nat, obj: ObjectFile, relocs: seq<Relocation>, es: seq<nat>)
      returns (cursor: nat)
    requires StaticsFit(Image(image[..], cursor0), obj, relocs, es)
    modifies image
    ensures Image(image[..], cursor) == PlaceStaticsUpTo(Image(old(image[..]), cursor0), obj, relocs, es, |es|)
  {
    ghost var st0 := Image(image[..], cursor0);
    cursor := cursor0;
    for i := 0 to |es|
      invariant Image(image[..], cursor) == PlaceStaticsUpTo(st0, obj, relocs, es, i)
    {
      SpanMonotone(obj, es, i + 1, |es|);
      assert EntryPlaceable(obj, es, i);
      cursor := PlaceEntry(image, cursor, obj, relocs, es, i);
    }
  }

  /** Two images agree on the field at `site` when they agree on its bytes. */
  lemma SameField(a: seq<Byte>, b: seq<Byte>, site: nat)
    requires site + 4 <= |a| == |b|
    requires forall x :: site <= x < site + 4 ==> a[x] == b[x]
    ensures a[site..site + 4] == b[site..site + 4]
  {
  }

  /** Patching the references to `idx` makes each of their fields reach
      `target`, leaves the field of every other relocation as it was, and
      changes no byte outside the relocation fields. */
  lemma PatchReferencesEffect(img: seq<Byte>, obj: ObjectFile, relocs: seq<Relocation>, idx: nat, target: int, k: nat)
    requires k <= |relocs| && SymbolsResolve(obj, relocs) && FieldsBelow(relocs, |img|) && FieldsDisjoint(relocs)
    ensures var r := PatchReferences(img, obj, relocs, idx, target, k);
      (forall j :: 0 <= j < k && Refers(obj, relocs[j], idx) ==>
         Field(r, relocs[j].virtualAddress) == Displacement(target, relocs[j].virtualAddress)) &&
      (forall j :: 0 <= j < |relocs| && !Refers(obj, relocs[j], idx) ==>
         r[relocs[j].virtualAddress..relocs[j].virtualAddress + 4] == img[relocs[j].virtualAddress..relocs[j].virtualAddress + 4]) &&
      (forall x :: 0 <= x < |img| && !InSomeField(relocs, x) ==> r[x] == img[x])
  {
    var r := PatchReferences(img, obj, relocs, idx, target, k);
    forall j | 0 <= j < |relocs|
      ensures j < k && Refers(obj, relocs[j], idx) ==>
        Field(r, relocs[j].virtualAddress) == Displacement(target, relocs[j].virtualAddress)
      ensures !Refers(obj, relocs[j], idx) ==>
        r[relocs[j].virtualAddress..relocs[j].virtualAddress + 4] == img[relocs[j].virtualAddress..relocs[j].virtualAddress + 4]
    {
      PatchReferencesField(img, obj, relocs, idx, target, k, j);
      FieldPatchedOf(img, obj, relocs, idx, target, k, j);
    }
    PatchReferencesFrame(img, obj, relocs, idx, target, k);
  }

  /** After the first `k` relocations are visited, the field of relocation
      `j` reaches `target` when `j` is one of them and refers to `idx`, and
      is as it was otherwise. */
  predicate FieldPatched(img: seq<Byte>, obj: ObjectFile, relocs: seq<Relocation>, idx: nat, target: int, k: nat, j: nat)
    requires k <= |relocs| && SymbolsResolve(obj, relocs) && FieldsBelow(relocs, |img|) && j < |relocs|
  {
    var r := PatchReferences(img, obj, relocs, idx, target, k);
    var va := relocs[j].virtualAddress;
    if j < k && Refers(obj, relocs[j], idx) then Field(r, va) == Displacement(target, va)
    else r[va..va + 4] == img[va..va + 4]
  }

  /** Reads off what `FieldPatched` says for one relocation; a separate step so that the
      lemma using it unfolds the predicate in a small context. */
  lemma FieldPatchedOf(img: seq<Byte>, obj: ObjectFile, relocs: seq<Relocation>, idx: nat, target: int, k: nat, j: nat)
    requires k <= |relocs| && SymbolsResolve(obj, relocs) && FieldsBelow(relocs, |img|) && j < |relocs|
    requires FieldPatched(img, obj, relocs, idx, target, k, j)
    ensures var r := PatchReferences(img, obj, relocs, idx, target, k);
      var va := relocs[j].virtualAddress;
      (j < k && Refers(obj, relocs[j], idx) ==> Field(r, va) == Displacement(target, va)) &&
      (!Refers(obj, relocs[j], idx) ==> r[va..va + 4] == img[va..va + 4])
  {
  }

  lemma {:induction false} PatchReferencesField(img: seq<Byte>, obj: ObjectFile, relocs: seq<Relocation>, idx: nat, target: int, k: nat, j: nat)
    requires k <= |relocs| && SymbolsResolve(obj, relocs) && FieldsBelow(relocs, |img|) && FieldsDisjoint(relocs)
    requires j < |relocs|
    ensures FieldPatched(img, obj, relocs, idx, target, k, j)
  {
    if k > 0 {
      PatchReferencesField(img, obj, relocs, idx, target, k - 1, j);
      FieldPatchedStep(img, obj, relocs, idx, target, k, j);
    }
  }

  lemma FieldPatchedStep(img: seq<Byte>, obj: ObjectFile, relocs: seq<Relocation>, idx: nat, target: int, k: nat, j: nat)
    requires 0 < k <= |relocs| && SymbolsResolve(obj, relocs) && FieldsBelow(relocs, |img|) && FieldsDisjoint(relocs)
    requires j < |relocs|
    requires FieldPatched(img, obj, relocs, idx, target, k - 1, j)
    ensures FieldPatched(img, obj, relocs, idx, target, k, j)
  {
    var prev := PatchReferences(img, obj, relocs, idx, target, k - 1);
    var r := PatchReferences(img, obj, relocs, idx, target, k);
    var m := relocs[k - 1];
    if Refers(obj, m, idx) {
      assert r == PatchRel32(prev, m.virtualAddress, target);
      if j != k - 1 {
        PatchRel32Frame(prev, m.virtualAddress, target);
        SameField(r, prev, relocs[j].virtualAddress);
      }
    } else {
      assert r == prev;
    }
  }

  lemma {:induction false} PatchReferencesFrame(img: seq<Byte>, obj: ObjectFile, relocs: seq<Relocation>, idx: nat, target: int, k: nat)
    requires k <= |relocs| && SymbolsResolve(obj, relocs) && FieldsBelow(relocs, |img|)
    ensures var r := PatchReferences(img, obj, relocs, idx, target, k);
      forall x :: 0 <= x < |img| && !InSomeField(relocs, x) ==> r[x] == img[x]
  {
    if k > 0 {
      PatchReferencesFrame(img, obj, relocs, idx, target, k - 1);
      var prev := PatchReferences(img, obj, relocs, idx, target, k - 1);
      var m := relocs[k - 1];
      if Refers(obj, m, idx) {
        PatchRel32Frame(prev, m.virtualAddress, target);
        forall x | 0 <= x < |img| && !InSomeField(relocs, x)
          ensures PatchRel32(prev, m.virtualAddress, target)[x] == img[x]
        {
          assert !InField(m, x);
        }
      }
    }
  }

  /** One placement step for entry `i` at cursor `c`: the entry's bytes
      land at `c`, the cursor advances by exactly the entry's size, every
      static relocation naming the entry's symbol index reaches `c`, every
      other relocation field is kept, and nothing else changes. */
  lemma StaticStepEffect(st: Image, obj: ObjectFile, relocs: seq<Relocation>, es: seq<nat>, i: nat)
    requires EntryPlaceable(obj, es, i) && SymbolsResolve(obj, relocs) && FieldsDisjoint(relocs)
    requires FieldsBelow(relocs, st.cursor)
    requires st.cursor + EntrySize(obj, es, i) <= |st.bytes|
    ensures var st' := StaticStep(st, obj, relocs, es, i);
      var idx := obj.symbols[es[i]].index;
      |st'.bytes| == |st.bytes| &&
      st'.cursor == st.cursor + EntrySize(obj, es, i) &&
      st'.bytes[st.cursor..st'.cursor] == EntryBytes(obj, es, i) &&
      (forall j :: 0 <= j < |relocs| && Refers(obj, relocs[j], idx) ==>
         Field(st'.bytes, relocs[j].virtualAddress) == Displacement(st.cursor, relocs[j].virtualAddress)) &&
      (forall j :: 0 <= j < |relocs| && !Refers(obj, relocs[j], idx) ==>
         st'.bytes[relocs[j].virtualAddress..relocs[j].virtualAddress + 4] ==
         st.bytes[relocs[j].virtualAddress..relocs[j].virtualAddress + 4]) &&
      (forall x :: 0 <= x < |st.bytes| && !(st.cursor <= x < st'.cursor) && !InSomeField(relocs, x) ==>
         st'.bytes[x] == st.bytes[x])
  {
    var idx := obj.symbols[es[i]].index;
    var size := EntrySize(obj, es, i);
    var copied := WriteAt(st.bytes, st.cursor, EntryBytes(obj, es, i));
    var st' := StaticStep(st, obj, relocs, es, i);
    PatchReferencesEffect(copied, obj, relocs, idx, st.cursor, |relocs|);
    forall j | 0 <= j < |relocs|
      ensures copied[relocs[j].virtualAddress..relocs[j].virtualAddress + 4] ==
              st.bytes[relocs[j].virtualAddress..relocs[j].virtualAddress + 4]
    {
      SameField(copied, st.bytes, relocs[j].virtualAddress);
    }
    forall x | st.cursor <= x < st'.cursor
      ensures st'.bytes[x] == copied[x]
    {
      forall k | 0 <= k < |relocs|
        ensures !InField(relocs[k], x)
      {
      }
    }
    assert st'.bytes[st.cursor..st'.cursor] == copied[st.cursor..st.cursor + size];
  }

  predicate EntriesNameSymbols(obj: ObjectFile, es: seq<nat>)
  {
    forall i :: 0 <= i < |es| ==> es[i] < |obj.symbols|
  }

  /** The backward search for the last of the first `k` entries whose
      symbol has index `idx`. */
  function FindLastEntry(obj: ObjectFile, es: seq<nat>, idx: nat, k: nat): (r: Option<nat>)
    requires k <= |es| && EntriesNameSymbols(obj, es)
    ensures r.Some? ==> r.value < k && obj.symbols[es[r.value]].index == idx
    ensures forall i :: (if r.Some? then r.value + 1 else 0) <= i < k ==> obj.symbols[es[i]].index != idx
  {
    if k == 0 then None
    else if obj.symbols[es[k - 1]].index == idx then Some(k - 1)
    else FindLastEntry(obj, es, idx, k - 1)
  }

  /** The last of the first `k` entries whose symbol has index `idx`.
      It is a separate, non-recursive name for `FindLastEntry` so that the facts
      stated about it do not unfold the recursion where they feed
      offsets and displacements, which keeps those proofs small. */
  function LastEntry(obj: ObjectFile, es: seq<nat>, idx: nat, k: nat): Option<nat>
    requires k <= |es| && EntriesNameSymbols(obj, es)
  {
    FindLastEntry(obj, es, idx, k)
  }

  /** The symbol index a relocation names. */
  function IndexOf(obj: ObjectFile, r: Relocation): nat
    requires r.symbol < |obj.symbols|
  {
    obj.symbols[r.symbol].index
  }

  /** Entry `i`'s bytes sit at offset `off` of `bytes`. */
  predicate EntryAt(bytes: seq<Byte>, obj: ObjectFile, es: seq<nat>, i: nat, off: nat)
  {
    EntryPlaceable(obj, es, i) && off + EntrySize(obj, es, i) <= |bytes| &&
    bytes[off..off + EntrySize(obj, es, i)] == EntryBytes(obj, es, i)
  }

  /** Placing the first `k` entries changes no byte outside the placed data
      and the relocation fields. */
  lemma {:induction false} PlaceStaticsFrame(st0: Image, obj: ObjectFile, relocs: seq<Relocation>, es: seq<nat>, k: nat)
    requires StaticsFit(st0, obj, relocs, es) && k <= |es|
    ensures var st := PlaceStaticsUpTo(st0, obj, relocs, es, k);
      forall x :: 0 <= x < |st0.bytes| && !(st0.cursor <= x < st.cursor) && !InSomeField(relocs, x) ==>
        st.bytes[x] == st0.bytes[x]
  {
    if k > 0 {
      PlaceStaticsFrame(st0, obj, relocs, es, k - 1);
      var prev := PlaceStaticsUpTo(st0, obj, relocs, es, k - 1);
      assert EntryPlaceable(obj, es, k - 1);
      SpanMonotone(obj, es, k, |es|);
      StaticStepFrame(prev, obj, relocs, es, k - 1);
    }
  }

  /** After the first `k` entries are placed, entry `i`'s bytes sit at the
      start cursor plus the sizes of the entries before it. */
  predicate EntryPlaced(st0: Image, obj: ObjectFile, relocs: seq<Relocation>, es: seq<nat>, k: nat, i: nat)
    requires StaticsFit(st0, obj, relocs, es) && k <= |es| && i <= |es|
  {
    EntryAt(PlaceStaticsUpTo(st0, obj, relocs, es, k).bytes, obj, es, i, st0.cursor + Span(obj, es, i))
  }

  /** After the first `k` entries are placed, each entry's bytes sit at its
      offset: the start cursor plus the sizes of the entries before it. */
  lemma PlaceStaticsEntries(st0: Image, obj: ObjectFile, relocs: seq<Relocation>, es: seq<nat>, k: nat)
    requires StaticsFit(st0, obj, relocs, es) && k <= |es|
    requires FieldsBelow(relocs, st0.cursor)
    ensures forall i :: 0 <= i < k ==> EntryPlaced(st0, obj, relocs, es, k, i)
  {
    forall i | 0 <= i < k
      ensures EntryPlaced(st0, obj, relocs, es, k, i)
    {
      EntryStays(st0, obj, relocs, es, k, i);
    }
  }

  /** Entry `i`, once placed, stays in place while later entries are. */
  lemma {:induction false} EntryStays(st0: Image, obj: ObjectFile, relocs: seq<Relocation>, es: seq<nat>, k: nat, i: nat)
    requires StaticsFit(st0, obj, relocs, es) && i < k <= |es|
    requires FieldsBelow(relocs, st0.cursor)
    ensures EntryPlaced(st0, obj, relocs, es, k, i)
  {
    if k == i + 1 {
      EntryLands(st0, obj, relocs, es, k);
    } else {
      EntryStays(st0, obj, relocs, es, k - 1, i);
      EntryKept(st0, obj, relocs, es, k, i);
    }
  }

  /** Placing entry `k - 1` puts its bytes at the cursor it starts from. */
  lemma EntryLands(st0: Image, obj: ObjectFile, relocs: seq<Relocation>, es: seq<nat>, k: nat)
    requires StaticsFit(st0, obj, relocs, es) && 0 < k <= |es|
    requires FieldsBelow(relocs, st0.cursor)
    ensures EntryPlaced(st0, obj, relocs, es, k, k - 1)
  {
    var prev := PlaceStaticsUpTo(st0, obj, relocs, es, k - 1);
    var st := PlaceStaticsUpTo(st0, obj, relocs, es, k);
    assert EntryPlaceable(obj, es, k - 1);
    SpanMonotone(obj, es, k, |es|);
    var copied := WriteAt(prev.bytes, prev.cursor, EntryBytes(obj, es, k - 1));
    PatchReferencesFrame(copied, obj, relocs, obj.symbols[es[k - 1]].index, prev.cursor, |relocs|);
    var lo := prev.cursor;
    var hi := lo + EntrySize(obj, es, k - 1);
    forall x | lo <= x < hi
      ensures st.bytes[x] == copied[x]
    {
      forall m | 0 <= m < |relocs|
        ensures !InField(relocs[m], x)
      {
      }
    }
    assert copied[lo..hi] == EntryBytes(obj, es, k - 1);
    assert st.bytes[lo..hi] == copied[lo..hi];
  }

  /** Placing entry `k - 1` leaves an earlier entry's bytes in place. */
  lemma EntryKept(st0: Image, obj: ObjectFile, relocs: seq<Relocation>, es: seq<nat>, k: nat, i: nat)
    requires StaticsFit(st0, obj, relocs, es) && 0 < k <= |es| && i < k - 1
    requires FieldsBelow(relocs, st0.cursor)
    requires EntryPlaced(st0, obj, relocs, es, k - 1, i)
    ensures EntryPlaced(st0, obj, relocs, es, k, i)
  {
    var prev := PlaceStaticsUpTo(st0, obj, relocs, es, k - 1);
    var st := PlaceStaticsUpTo(st0, obj, relocs, es, k);
    assert EntryPlaceable(obj, es, k - 1);
    SpanMonotone(obj, es, k, |es|);
    StaticStepFrame(prev, obj, relocs, es, k - 1);
    SpanMonotone(obj, es, i + 1, k - 1);
    var lo := st0.cursor + Span(obj, es, i);
    var hi := lo + EntrySize(obj, es, i);
    assert hi <= prev.cursor;
    forall x | lo <= x < hi
      ensures st.bytes[x] == prev.bytes[x]
    {
      forall m | 0 <= m < |relocs|
        ensures !InField(relocs[m], x)
      {
      }
    }
    assert prev.bytes[lo..hi] == EntryBytes(obj, es, i);
    assert st.bytes[lo..hi] == prev.bytes[lo..hi];
  }

  /** A placement step changes nothing outside the entry it copies and the
      relocation fields. */
  lemma StaticStepFrame(st: Image, obj: ObjectFile, relocs: seq<Relocation>, es: seq<nat>, i: nat)
    requires EntryPlaceable(obj, es, i) && SymbolsResolve(obj, relocs) && FieldsBelow(relocs, |st.bytes|)
    requires st.cursor + EntrySize(obj, es, i) <= |st.bytes|
    ensures var st' := StaticStep(st, obj, relocs, es, i);
      forall x :: 0 <= x < |st.bytes| && !(st.cursor <= x < st'.cursor) && !InSomeField(relocs, x) ==>
        st'.bytes[x] == st.bytes[x]
  {
    var copied := WriteAt(st.bytes, st.cursor, EntryBytes(obj, es, i));
    PatchReferencesFrame(copied, obj, relocs, obj.symbols[es[i]].index, st.cursor, |relocs|);
  }

  /** After the first `k` entries are placed, the field of relocation `j`
      reaches the LAST placed entry with its symbol index when it is static
      and such an entry exists; otherwise it is as it was. */
  predicate FieldPlaced(st0: Image, obj: ObjectFile, relocs: seq<Relocation>, es: seq<nat>, k: nat, j: nat)
    requires StaticsFit(st0, obj, relocs, es) && k <= |es| && EntriesNameSymbols(obj, es)
    requires FieldsBelow(relocs, st0.cursor) && j < |relocs|
  {
    var st := PlaceStaticsUpTo(st0, obj, relocs, es, k);
    var va := relocs[j].virtualAddress;
    var last := LastEntry(obj, es, IndexOf(obj, relocs[j]), k);
    if IsStatic(obj, relocs[j]) && last.Some? then
      Field(st.bytes, va) == Displacement(st0.cursor + Span(obj, es, last.value), va)
    else
      st.bytes[va..va + 4] == st0.bytes[va..va + 4]
  }

  /** After the first `k` entries are placed, the field of relocation `j`
      reaches the LAST placed entry with its symbol index when it is static
      and such an entry exists (a later duplicate wins); otherwise it is as
      it was. */
  lemma {:induction false} PlaceStaticsField(st0: Image, obj: ObjectFile, relocs: seq<Relocation>, es: seq<nat>, k: nat, j: nat)
    requires StaticsFit(st0, obj, relocs, es) && k <= |es| && EntriesNameSymbols(obj, es)
    requires FieldsDisjoint(relocs) && FieldsBelow(relocs, st0.cursor) && j < |relocs|
    ensures FieldPlaced(st0, obj, relocs, es, k, j)
  {
    if k > 0 {
      PlaceStaticsField(st0, obj, relocs, es, k - 1, j);
      FieldPlacedStep(st0, obj, relocs, es, k, j);
    }
  }

  lemma FieldPlacedStep(st0: Image, obj: ObjectFile, relocs: seq<Relocation>, es: seq<nat>, k: nat, j: nat)
    requires StaticsFit(st0, obj, relocs, es) && 0 < k <= |es| && EntriesNameSymbols(obj, es)
    requires FieldsDisjoint(relocs) && FieldsBelow(relocs, st0.cursor) && j < |relocs|
    requires FieldPlaced(st0, obj, relocs, es, k - 1, j)
    ensures FieldPlaced(st0, obj, relocs, es, k, j)
  {
    var prev := PlaceStaticsUpTo(st0, obj, relocs, es, k - 1);
    assert EntryPlaceable(obj, es, k - 1);
    SpanMonotone(obj, es, k, |es|);
    assert PlaceStaticsUpTo(st0, obj, relocs, es, k) == StaticStep(prev, obj, relocs, es, k - 1);
    StaticStepField(prev, obj, relocs, es, k - 1, j);
  }

  /** One placement step as seen from the field of relocation `j`: it
      reaches the cursor when `j` refers to the entry's symbol index, and is
      kept otherwise. */
  lemma StaticStepField(st: Image, obj: ObjectFile, relocs: seq<Relocation>, es: seq<nat>, i: nat, j: nat)
    requires EntryPlaceable(obj, es, i) && SymbolsResolve(obj, relocs) && FieldsDisjoint(relocs)
    requires FieldsBelow(relocs, st.cursor) && j < |relocs|
    requires st.cursor + EntrySize(obj, es, i) <= |st.bytes|
    ensures var st' := StaticStep(st, obj, relocs, es, i);
      var va := relocs[j].virtualAddress;
      if Refers(obj, relocs[j], obj.symbols[es[i]].index) then
        Field(st'.bytes, va) == Displacement(st.cursor, va)
      else
        st'.bytes[va..va + 4] == st.bytes[va..va + 4]
  {
    StaticStepEffect(st, obj, relocs, es, i);
  }

  /** The whole placement phase: every static relocation whose symbol index
      some entry has reaches the last such entry, and every other
      relocation field is as it was. */
  lemma PlaceStaticsFields(st0: Image, obj: ObjectFile, relocs: seq<Relocation>, es: seq<nat>)
    requires StaticsFit(st0, obj, relocs, es) && EntriesNameSymbols(obj, es)
    requires FieldsDisjoint(relocs) && FieldsBelow(relocs, st0.cursor)
    ensures forall j :: 0 <= j < |relocs| ==> FieldPlaced(st0, obj, relocs, es, |es|, j)
  {
    forall j | 0 <= j < |relocs| {
      PlaceStaticsField(st0, obj, relocs, es, |es|, j);
    }
  }

  /** After placement, a static relocation whose symbol index some entry
      has reaches the last such entry. */
  lemma StaticFieldPlaced(st0: Image, obj: ObjectFile, relocs: seq<Relocation>, es: seq<nat>, j: nat)
    requires StaticsFit(st0, obj, relocs, es) && EntriesNameSymbols(obj, es)
    requires FieldsDisjoint(relocs) && FieldsBelow(relocs, st0.cursor) && j < |relocs|
    requires IsStatic(obj, relocs[j]) && LastEntry(obj, es, IndexOf(obj, relocs[j]), |es|).Some?
    ensures var va := relocs[j].virtualAddress;
      Field(PlaceStaticsUpTo(st0, obj, relocs, es, |es|).bytes, va) ==
        Displacement(st0.cursor + Span(obj, es, LastEntry(obj, es, IndexOf(obj, relocs[j]), |es|).value), va)
  {
    PlaceStaticsField(st0, obj, relocs, es, |es|, j);
    StaticFieldOf(st0, obj, relocs, es, j);
  }

  /** Reads off what `FieldPlaced` says for one static relocation; a separate step so that the
      lemma using it unfolds the predicate in a small context. */
  lemma StaticFieldOf(st0: Image, obj: ObjectFile, relocs: seq<Relocation>, es: seq<nat>, j: nat)
    requires StaticsFit(st0, obj, relocs, es) && EntriesNameSymbols(obj, es)
    requires FieldsBelow(relocs, st0.cursor) && j < |relocs|
    requires IsStatic(obj, relocs[j]) && LastEntry(obj, es, IndexOf(obj, relocs[j]), |es|).Some?
    requires FieldPlaced(st0, obj, relocs, es, |es|, j)
    ensures var va := relocs[j].virtualAddress;
      Field(PlaceStaticsUpTo(st0, obj, relocs, es, |es|).bytes, va) ==
        Displacement(st0.cursor + Span(obj, es, LastEntry(obj, es, IndexOf(obj, relocs[j]), |es|).value), va)
  {
  }

  /** After placement, the field of any other relocation is as it was. */
  lemma OtherFieldPlaced(st0: Image, obj: ObjectFile, relocs: seq<Relocation>, es: seq<nat>, j: nat)
    requires StaticsFit(st0, obj, relocs, es) && EntriesNameSymbols(obj, es)
    requires FieldsDisjoint(relocs) && FieldsBelow(relocs, st0.cursor) && j < |relocs|
    requires !(IsStatic(obj, relocs[j]) && LastEntry(obj, es, IndexOf(obj, relocs[j]), |es|).Some?)
    ensures var va := relocs[j].virtualAddress;
      PlaceStaticsUpTo(st0, obj, relocs, es, |es|).bytes[va..va + 4] == st0.bytes[va..va + 4]
  {
    PlaceStaticsField(st0, obj, relocs, es, |es|, j);
    OtherFieldOf(st0, obj, relocs, es, j);
  }

  /** Reads off what `FieldPlaced` says for one other relocation; a separate step so that the
      lemma using it unfolds the predicate in a small context. */
  lemma OtherFieldOf(st0: Image, obj: ObjectFile, relocs: seq<Relocation>, es: seq<nat>, j: nat)
    requires StaticsFit(st0, obj, relocs, es) && EntriesNameSymbols(obj, es)
    requires FieldsBelow(relocs, st0.cursor) && j < |relocs|
    requires !(IsStatic(obj, relocs[j]) && LastEntry(obj, es, IndexOf(obj, relocs[j]), |es|).Some?)
    requires FieldPlaced(st0, obj, relocs, es, |es|, j)
    ensures var va := relocs[j].virtualAddress;
      PlaceStaticsUpTo(st0, obj, relocs, es, |es|).bytes[va..va + 4] == st0.bytes[va..va + 4]
  {
  }

  /** After placement, entry `i` lies at its place after the cursor, inside
      the placed data. */
  lemma EntryPlacedAt(st0: Image, obj: ObjectFile, relocs: seq<Relocation>, es: seq<nat>, i: nat)
    requires StaticsFit(st0, obj, relocs, es) && i < |es|
    requires FieldsBelow(relocs, st0.cursor)
    ensures EntryPlaceable(obj, es, i)
    ensures Span(obj, es, i) + EntrySize(obj, es, i) <= Span(obj, es, |es|)
    ensures EntryAt(PlaceStaticsUpTo(st0, obj, relocs, es, |es|).bytes, obj, es, i, st0.cursor + Span(obj, es, i))
  {
    EntryStays(st0, obj, relocs, es, |es|, i);
    EntryOf(st0, obj, relocs, es, i);
    SpanMonotone(obj, es, i + 1, |es|);
  }

  /** Reads off what `EntryPlaced` says for one entry; a separate step so that the
      lemma using it unfolds the predicate in a small context. */
  lemma EntryOf(st0: Image, obj: ObjectFile, relocs: seq<Relocation>, es: seq<nat>, i: nat)
    requires StaticsFit(st0, obj, relocs, es) && i < |es|
    requires EntryPlaced(st0, obj, relocs, es, |es|, i)
    ensures EntryPlaceable(obj, es, i)
    ensures Span(obj, es, i + 1) == Span(obj, es, i) + EntrySize(obj, es, i)
    ensures EntryAt(PlaceStaticsUpTo(st0, obj, relocs, es, |es|).bytes, obj, es, i, st0.cursor + Span(obj, es, i))
  {
  }
}
