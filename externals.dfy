/**
  External binding: for every code relocation whose symbol is external, the
  declared libraries are tried in order until one exports the symbol, whose
  address then goes into a fresh 8-byte slot that the relocation is patched
  to reach; a symbol whose name contains `COFF_API_Print` is bound, in
  addition, to the host's print callback.
 */
module Externals {
  import opened Wrappers
  import opened Bytes
  import opened Memory
  import opened Directives
  import opened Coff
  import opened Layout

  /** An address `GetProcAddress` can return for an exported name: never
      NULL, since NULL is how it reports a miss. */
  type ProcAddress = a: Address | a != 0 witness 1

  /** `GetProcAddress(LoadLibraryA(dll), name)`: the address of `name` in
      the module `dll`, or None (the NULL result) when the module does not
      load or does not export the name. */
  type Lookup = (string, string) -> Option<ProcAddress>

  /** The name that selects the host's print callback. */
  const HostPrintName: string := "COFF_API_Print"

  /** Every library name the search tries, up to and including the first
      one that exports `fname`, has the three characters `pop_back` removes. */
  predicate ScanDefined(names: seq<string>, fname: string, lookup: Lookup)
  {
    names == [] ||
    (|names[0]| >= 3 && (lookup(DllName(names[0]), fname).None? ==> ScanDefined(names[1..], fname, lookup)))
  }

  /** The address the library search binds `fname` to: the one exported by
      the first library that has it.
      It is a separate, non-recursive name for `FirstExport` so that the facts
      stated about it do not unfold the recursion where they feed
      offsets and displacements, which keeps those proofs small. */
  function Resolve(names: seq<string>, fname: string, lookup: Lookup): Option<Address>
    requires ScanDefined(names, fname, lookup)
  {
    FirstExport(names, fname, lookup)
  }

  /** The search itself, library by library. */
  function FirstExport(names: seq<string>, fname: string, lookup: Lookup): Option<Address>
    requires ScanDefined(names, fname, lookup)
  {
    if names == [] then None
    else
      match lookup(DllName(names[0]), fname)
      case Some(a) => Some(a)
      case None => FirstExport(names[1..], fname, lookup)
  }

  /** Library `k` is the first of `names` that exports `fname`, at `a`. */
  ghost predicate FirstHit(names: seq<string>, fname: string, lookup: Lookup, k: nat, a: Address)
  {
    k < |names| &&
    (forall i :: 0 <= i <= k ==> |names[i]| >= 3) &&
    (forall i :: 0 <= i < k ==> lookup(DllName(names[i]), fname).None?) &&
    lookup(DllName(names[k]), fname) == Some(a)
  }

  /** No library of `names` exports `fname`. */
  ghost predicate NoHit(names: seq<string>, fname: string, lookup: Lookup)
  {
    forall i :: 0 <= i < |names| ==> |names[i]| >= 3 && lookup(DllName(names[i]), fname).None?
  }

  /** The search binds `fname` to `a` exactly when some library is the
      first to export it, at `a`. */
  lemma {:induction false} ResolveFirstHit(names: seq<string>, fname: string, lookup: Lookup, a: Address)
    requires ScanDefined(names, fname, lookup)
    ensures Resolve(names, fname, lookup) == Some(a) <==> exists k: nat :: FirstHit(names, fname, lookup, k, a)
  {
    if names != [] {
      var tail := names[1..];
      assert forall i :: 0 <= i < |tail| ==> tail[i] == names[i + 1];
      match lookup(DllName(names[0]), fname)
      case Some(a0) =>
        if a == a0 {
          assert FirstHit(names, fname, lookup, 0, a0);
        }
        if k: nat :| FirstHit(names, fname, lookup, k, a) {
          assert k == 0;
        }
      case None =>
        ResolveFirstHit(tail, fname, lookup, a);
        if Resolve(names, fname, lookup) == Some(a) {
          var k: nat :| FirstHit(tail, fname, lookup, k, a);
          assert FirstHit(names, fname, lookup, k + 1, a);
        }
        if k: nat :| FirstHit(names, fname, lookup, k, a) {
          assert k > 0;
          assert FirstHit(tail, fname, lookup, k - 1, a);
        }
    }
  }

  /** The search binds nothing exactly when no library exports `fname`. */
  lemma {:induction false} ResolveNoHit(names: seq<string>, fname: string, lookup: Lookup)
    requires ScanDefined(names, fname, lookup)
    ensures Resolve(names, fname, lookup).None? <==> NoHit(names, fname, lookup)
  {
    if names != [] {
      var tail := names[1..];
      assert forall i :: 0 <= i < |tail| ==> tail[i] == names[i + 1];
      if lookup(DllName(names[0]), fname).None? {
        ResolveNoHit(tail, fname, lookup);
        if NoHit(tail, fname, lookup) {
          forall i | 0 <= i < |names|
            ensures |names[i]| >= 3 && lookup(DllName(names[i]), fname).None?
          {
            if i > 0 {
              assert names[i] == tail[i - 1];
            }
          }
        }
      }
    }
  }

  /** The address the site's field finally reaches: the host callback when
      the name contains `COFF_API_Print` (its slot is written last), else
      the library search's result. */
  function BoundAddress(names: seq<string>, fname: string, lookup: Lookup, hostPrint: Address): Option<Address>
    requires ScanDefined(names, fname, lookup)
  {
    if Contains(fname, HostPrintName) then Some(hostPrint) else Resolve(names, fname, lookup)
  }

  /** How many slots binding `fname` writes: one for a library hit and one
      for the host callback. */
  function SiteSlots(names: seq<string>, fname: string, lookup: Lookup): nat
    requires ScanDefined(names, fname, lookup)
  {
    (if Resolve(names, fname, lookup).Some? then 1 else 0) + (if Contains(fname, HostPrintName) then 1 else 0)
  }

  /** Write `a` into the slot at the cursor, patch the field at `va` to reach
      that slot, and advance the cursor by 8. */
  function BindSlot(st: Image, va: nat, a: Address): Image
    requires va + 4 <= |st.bytes| && st.cursor + 8 <= |st.bytes|
  {
    Image(PatchRel32(WriteSlot(st.bytes, st.cursor, a), va, st.cursor), st.cursor + 8)
  }

  /** The slot at the cursor holds `a`, the field at `va` reaches it, and
      nothing else changes. */
  lemma BindSlotEffect(st: Image, va: nat, a: Address)
    requires va + 4 <= st.cursor && st.cursor + 8 <= |st.bytes|
    ensures var st' := BindSlot(st, va, a);
      |st'.bytes| == |st.bytes| && st'.cursor == st.cursor + 8 &&
      Slot(st'.bytes, st.cursor) == a && Field(st'.bytes, va) == Displacement(st.cursor, va) &&
      (forall x :: 0 <= x < |st.bytes| && !(st.cursor <= x < st.cursor + 8) && !(va <= x < va + 4) ==>
         st'.bytes[x] == st.bytes[x])
  {
    var w := WriteSlot(st.bytes, st.cursor, a);
    var st' := BindSlot(st, va, a);
    WriteSlotFrame(st.bytes, st.cursor, a);
    PatchRel32Frame(w, va, st.cursor);
    assert st'.bytes[st.cursor..st.cursor + 8] == w[st.cursor..st.cursor + 8];
  }

  /** The library search's part of binding the relocation at `va` to
      `fname`: a slot for the address found, if any. */
  function LibraryBinding(st: Image, va: nat, fname: string, names: seq<string>, lookup: Lookup): Image
    requires ScanDefined(names, fname, lookup) && va + 4 <= |st.bytes|
    requires Resolve(names, fname, lookup).Some? ==> st.cursor + 8 <= |st.bytes|
  {
    match Resolve(names, fname, lookup)
    case Some(a) => BindSlot(st, va, a)
    case None => st
  }

  /** The effect of binding the external relocation at `va` to `fname`: the
      library search's slot, if any, then the host callback's slot, if the
      name selects it. */
  function BindSite(st: Image, va: nat, fname: string, names: seq<string>, lookup: Lookup, hostPrint: Address): Image
    requires ScanDefined(names, fname, lookup) && va + 4 <= |st.bytes|
    requires st.cursor + 8 * SiteSlots(names, fname, lookup) <= |st.bytes|
  {
    var st1 := LibraryBinding(st, va, fname, names, lookup);
    if Contains(fname, HostPrintName) then BindSlot(st1, va, hostPrint) else st1
  }

  /** Binding one site: the cursor advances by one slot per binding; when
      some address is bound, the field reaches the last slot written and
      that slot holds the bound address; when none is, nothing changes. */
  lemma BindSiteEffect(st: Image, va: nat, fname: string, names: seq<string>, lookup: Lookup, hostPrint: Address)
    requires ScanDefined(names, fname, lookup) && va + 4 <= st.cursor
    requires st.cursor + 8 * SiteSlots(names, fname, lookup) <= |st.bytes|
    ensures var st' := BindSite(st, va, fname, names, lookup, hostPrint);
      var n := SiteSlots(names, fname, lookup);
      |st'.bytes| == |st.bytes| && st'.cursor == st.cursor + 8 * n &&
      (BoundAddress(names, fname, lookup, hostPrint).Some? <==> n > 0) &&
      (n > 0 ==>
         Field(st'.bytes, va) == Displacement(st.cursor + 8 * (n - 1), va) &&
         Slot(st'.bytes, st.cursor + 8 * (n - 1)) == BoundAddress(names, fname, lookup, hostPrint).value) &&
      (n == 0 ==> st' == st)
  {
    var host := Contains(fname, HostPrintName);
    match Resolve(names, fname, lookup)
    case Some(a) =>
      if host {
        BindSiteBoth(st, va, fname, names, lookup, hostPrint, a);
      } else {
        BindSiteLibrary(st, va, fname, names, lookup, hostPrint, a);
      }
    case None =>
      if host {
        BindSiteHost(st, va, fname, names, lookup, hostPrint);
      } else {
        BindSiteNeither(st, va, fname, names, lookup, hostPrint);
      }
  }

  lemma BindSiteBoth(st: Image, va: nat, fname: string, names: seq<string>, lookup: Lookup, hostPrint: Address, a: Address)
    requires ScanDefined(names, fname, lookup) && va + 4 <= st.cursor
    requires st.cursor + 8 * SiteSlots(names, fname, lookup) <= |st.bytes|
    requires Resolve(names, fname, lookup) == Some(a) && Contains(fname, HostPrintName)
    ensures SiteSlots(names, fname, lookup) == 2 && BoundAddress(names, fname, lookup, hostPrint) == Some(hostPrint)
    ensures var st' := BindSite(st, va, fname, names, lookup, hostPrint);
      var slot := st.cursor + 8 * (SiteSlots(names, fname, lookup) - 1);
      |st'.bytes| == |st.bytes| && st'.cursor == st.cursor + 16 &&
      Field(st'.bytes, va) == Displacement(slot, va) && Slot(st'.bytes, slot) == hostPrint
  {
    assert st.cursor + 8 * (SiteSlots(names, fname, lookup) - 1) == st.cursor + 8;
    BindSlotEffect(st, va, a);
    BindSlotEffect(BindSlot(st, va, a), va, hostPrint);
  }

  lemma BindSiteLibrary(st: Image, va: nat, fname: string, names: seq<string>, lookup: Lookup, hostPrint: Address, a: Address)
    requires ScanDefined(names, fname, lookup) && va + 4 <= st.cursor
    requires st.cursor + 8 * SiteSlots(names, fname, lookup) <= |st.bytes|
    requires Resolve(names, fname, lookup) == Some(a) && !Contains(fname, HostPrintName)
    ensures SiteSlots(names, fname, lookup) == 1 && BoundAddress(names, fname, lookup, hostPrint) == Some(a)
    ensures var st' := BindSite(st, va, fname, names, lookup, hostPrint);
      var slot := st.cursor + 8 * (SiteSlots(names, fname, lookup) - 1);
      |st'.bytes| == |st.bytes| && st'.cursor == st.cursor + 8 &&
      Field(st'.bytes, va) == Displacement(slot, va) && Slot(st'.bytes, slot) == a
  {
    assert st.cursor + 8 * (SiteSlots(names, fname, lookup) - 1) == st.cursor;
    BindSlotEffect(st, va, a);
  }

  lemma BindSiteHost(st: Image, va: nat, fname: string, names: seq<string>, lookup: Lookup, hostPrint: Address)
    requires ScanDefined(names, fname, lookup) && va + 4 <= st.cursor
    requires st.cursor + 8 * SiteSlots(names, fname, lookup) <= |st.bytes|
    requires Resolve(names, fname, lookup).None? && Contains(fname, HostPrintName)
    ensures SiteSlots(names, fname, lookup) == 1 && BoundAddress(names, fname, lookup, hostPrint) == Some(hostPrint)
    ensures var st' := BindSite(st, va, fname, names, lookup, hostPrint);
      var slot := st.cursor + 8 * (SiteSlots(names, fname, lookup) - 1);
      |st'.bytes| == |st.bytes| && st'.cursor == st.cursor + 8 &&
      Field(st'.bytes, va) == Displacement(slot, va) && Slot(st'.bytes, slot) == hostPrint
  {
    assert st.cursor + 8 * (SiteSlots(names, fname, lookup) - 1) == st.cursor;
    BindSlotEffect(st, va, hostPrint);
  }

  lemma BindSiteNeither(st: Image, va: nat, fname: string, names: seq<string>, lookup: Lookup, hostPrint: Address)
    requires ScanDefined(names, fname, lookup) && va + 4 <= st.cursor
    requires st.cursor <= |st.bytes|
    requires Resolve(names, fname, lookup).None? && !Contains(fname, HostPrintName)
    ensures SiteSlots(names, fname, lookup) == 0 && BoundAddress(names, fname, lookup, hostPrint).None?
    ensures BindSite(st, va, fname, names, lookup, hostPrint) == st
  {
  }

  /** When the name is bound both by a library and to the host callback, the
      library's address stays in the first slot, which nothing reaches. */
  lemma BindSiteTwice(st: Image, va: nat, fname: string, names: seq<string>, lookup: Lookup, hostPrint: Address)
    requires ScanDefined(names, fname, lookup) && va + 4 <= st.cursor
    requires st.cursor + 8 * SiteSlots(names, fname, lookup) <= |st.bytes|
    requires Resolve(names, fname, lookup).Some? && Contains(fname, HostPrintName)
    ensures var st' := BindSite(st, va, fname, names, lookup, hostPrint);
      Slot(st'.bytes, st.cursor) == Resolve(names, fname, lookup).value &&
      Field(st'.bytes, va) == Displacement(st.cursor + 8, va)
  {
    var a := Resolve(names, fname, lookup).value;
    var st1 := BindSlot(st, va, a);
    BindSlotEffect(st, va, a);
    SlotKept(st1, va, hostPrint, st.cursor);
    BindSlotEffect(st1, va, hostPrint);
  }

  /** A slot below the cursor and clear of the field survives a binding. */
  lemma SlotKept(st: Image, va: nat, a: Address, off: nat)
    requires va + 4 <= st.cursor && st.cursor + 8 <= |st.bytes|
    requires off + 8 <= st.cursor && (va + 4 <= off || off + 8 <= va)
    ensures Slot(BindSlot(st, va, a).bytes, off) == Slot(st.bytes, off)
  {
    BindSlotEffect(st, va, a);
    assert BindSlot(st, va, a).bytes[off..off + 8] == st.bytes[off..off + 8];
  }

  /** Binding one site changes no byte outside the new slots and the site's
      field. */
  lemma BindSiteFrame(st: Image, va: nat, fname: string, names: seq<string>, lookup: Lookup, hostPrint: Address)
    requires ScanDefined(names, fname, lookup) && va + 4 <= st.cursor
    requires st.cursor + 8 * SiteSlots(names, fname, lookup) <= |st.bytes|
    ensures var st' := BindSite(st, va, fname, names, lookup, hostPrint);
      |st'.bytes| == |st.bytes| && st'.cursor == st.cursor + 8 * SiteSlots(names, fname, lookup) &&
      forall x :: 0 <= x < |st.bytes| && !(st.cursor <= x < st'.cursor) && !(va <= x < va + 4) ==>
        st'.bytes[x] == st.bytes[x]
  {
    var host := Contains(fname, HostPrintName);
    match Resolve(names, fname, lookup)
    case Some(a) =>
      BindSlotEffect(st, va, a);
      if host {
        BindSlotEffect(BindSlot(st, va, a), va, hostPrint);
      }
    case None =>
      if host {
        BindSlotEffect(st, va, hostPrint);
      }
  }

  /** Every external relocation's lookup name has a defined library search. */
  predicate ExternalsDefined(obj: ObjectFile, relocs: seq<Relocation>, names: seq<string>, lookup: Lookup)
    requires SymbolsResolve(obj, relocs)
  {
    forall k :: 0 <= k < |relocs| && IsExternal(obj, relocs[k]) ==>
      ScanDefined(names, LookupName(obj.symbols[relocs[k].symbol].name), lookup)
  }

  /** The lookup name of relocation `k`'s symbol. */
  function SiteName(obj: ObjectFile, relocs: seq<Relocation>, k: nat): string
    requires SymbolsResolve(obj, relocs) && k < |relocs|
  {
    LookupName(obj.symbols[relocs[k].symbol].name)
  }

  /** The slots the first `k` relocations take.
      It is a separate, non-recursive name for `SlotCount` so that the facts
      stated about it do not unfold the recursion where they feed
      offsets and displacements, which keeps those proofs small. */
  function SlotsUpTo(obj: ObjectFile, relocs: seq<Relocation>, names: seq<string>, lookup: Lookup, k: nat): nat
    requires SymbolsResolve(obj, relocs) && ExternalsDefined(obj, relocs, names, lookup) && k <= |relocs|
  {
    SlotCount(obj, relocs, names, lookup, k)
  }

  /** The count itself, relocation by relocation. */
  function SlotCount(obj: ObjectFile, relocs: seq<Relocation>, names: seq<string>, lookup: Lookup, k: nat): nat
    requires SymbolsResolve(obj, relocs) && ExternalsDefined(obj, relocs, names, lookup) && k <= |relocs|
  {
    if k == 0 then 0
    else
      SlotCount(obj, relocs, names, lookup, k - 1) +
      if IsExternal(obj, relocs[k - 1]) then SiteSlots(names, SiteName(obj, relocs, k - 1), lookup) else 0
  }

  lemma {:induction false} SlotsMonotone(obj: ObjectFile, relocs: seq<Relocation>, names: seq<string>, lookup: Lookup, j: nat, k: nat)
    requires SymbolsResolve(obj, relocs) && ExternalsDefined(obj, relocs, names, lookup) && j <= k <= |relocs|
    ensures SlotsUpTo(obj, relocs, names, lookup, j) <= SlotsUpTo(obj, relocs, names, lookup, k)
    decreases k - j
  {
    if j < k {
      SlotsMonotone(obj, relocs, names, lookup, j, k - 1);
    }
  }

  /** Relocations are well formed, every search is defined, and every slot
      fits in the image. */
  predicate BindFits(st0: Image, obj: ObjectFile, relocs: seq<Relocation>, names: seq<string>, lookup: Lookup)
  {
    SymbolsResolve(obj, relocs) && FieldsBelow(relocs, st0.cursor) &&
    ExternalsDefined(obj, relocs, names, lookup) &&
    st0.cursor + 8 * SlotsUpTo(obj, relocs, names, lookup, |relocs|) <= |st0.bytes|
  }

  /** The state after visiting relocation `k - 1` from `prev`, the state
      after the relocations before it: an external one is bound, any other
      is passed over. */
  function BindStep(st0: Image, prev: Image, obj: ObjectFile, relocs: seq<Relocation>, names: seq<string>,
                    lookup: Lookup, hostPrint: Address, k: nat): (st: Image)
    requires BindFits(st0, obj, relocs, names, lookup) && 0 < k <= |relocs|
    requires |prev.bytes| == |st0.bytes| && prev.cursor == st0.cursor + 8 * SlotsUpTo(obj, relocs, names, lookup, k - 1)
    ensures |st.bytes| == |st0.bytes| && st.cursor == st0.cursor + 8 * SlotsUpTo(obj, relocs, names, lookup, k)
  {
    var r := relocs[k - 1];
    SlotsMonotone(obj, relocs, names, lookup, k, |relocs|);
    if IsExternal(obj, r) then
      BindSiteEffect(prev, r.virtualAddress, SiteName(obj, relocs, k - 1), names, lookup, hostPrint);
      BindSite(prev, r.virtualAddress, SiteName(obj, relocs, k - 1), names, lookup, hostPrint)
    else prev
  }

  /** The state after the first `k` relocations are visited. */
  function BindUpTo(st0: Image, obj: ObjectFile, relocs: seq<Relocation>, names: seq<string>, lookup: Lookup,
                    hostPrint: Address, k: nat): (st: Image)
    requires BindFits(st0, obj, relocs, names, lookup) && k <= |relocs|
    ensures |st.bytes| == |st0.bytes| && st.cursor == st0.cursor + 8 * SlotsUpTo(obj, relocs, names, lookup, k)
  {
    if k == 0 then st0
    else BindStep(st0, BindUpTo(st0, obj, relocs, names, lookup, hostPrint, k - 1), obj, relocs, names, lookup, hostPrint, k)
  }

  /** Visiting an external relocation binds its site. */
  lemma BindStepExternal(st0: Image, prev: Image, obj: ObjectFile, relocs: seq<Relocation>, names: seq<string>,
                         lookup: Lookup, hostPrint: Address, k: nat)
    requires BindFits(st0, obj, relocs, names, lookup) && 0 < k <= |relocs|
    requires |prev.bytes| == |st0.bytes| && prev.cursor == st0.cursor + 8 * SlotsUpTo(obj, relocs, names, lookup, k - 1)
    requires IsExternal(obj, relocs[k - 1])
    ensures SlotsUpTo(obj, relocs, names, lookup, k) <= SlotsUpTo(obj, relocs, names, lookup, |relocs|)
    ensures BindStep(st0, prev, obj, relocs, names, lookup, hostPrint, k) ==
            BindSite(prev, relocs[k - 1].virtualAddress, SiteName(obj, relocs, k - 1), names, lookup, hostPrint)
  {
    SlotsMonotone(obj, relocs, names, lookup, k, |relocs|);
  }

  /** Visiting any other relocation changes nothing. */
  lemma BindStepOther(st0: Image, prev: Image, obj: ObjectFile, relocs: seq<Relocation>, names: seq<string>,
                      lookup: Lookup, hostPrint: Address, k: nat)
    requires BindFits(st0, obj, relocs, names, lookup) && 0 < k <= |relocs|
    requires |prev.bytes| == |st0.bytes| && prev.cursor == st0.cursor + 8 * SlotsUpTo(obj, relocs, names, lookup, k - 1)
    requires !IsExternal(obj, relocs[k - 1])
    ensures BindStep(st0, prev, obj, relocs, names, lookup, hostPrint, k) == prev
  {
  }

  /** One round of the search from the marker occurrence at `p`: the name
      after the marker, with `dll` for its last three characters, is tried;
      on a miss the search goes on from the next occurrence. */
  lemma ScanStep(text: string, p: nat, fname: string, lookup: Lookup)
    requires OccursAt(text, DefaultLibMarker, p)
    requires ScanDefined(LibraryNamesFrom(text, Some(p)), fname, lookup)
    ensures var start := p + |DefaultLibMarker|;
      var name := text[start..NameEnd(text, start)];
      var next := Find(text, DefaultLibMarker, start + 1);
      |name| >= 3 &&
      (lookup(DllName(name), fname).Some? ==>
         Resolve(LibraryNamesFrom(text, Some(p)), fname, lookup) == lookup(DllName(name), fname)) &&
      (lookup(DllName(name), fname).None? ==>
         ScanDefined(LibraryNamesFrom(text, next), fname, lookup) &&
         Resolve(LibraryNamesFrom(text, Some(p)), fname, lookup) == Resolve(LibraryNamesFrom(text, next), fname, lookup))
  {
    var start := p + |DefaultLibMarker|;
    var names := LibraryNamesFrom(text, Some(p));
    assert names[1..] == LibraryNamesFrom(text, Find(text, DefaultLibMarker, start + 1));
  }

  /** Writes `a` into the slot at the cursor, patches the field at `va` to
      reach it, and moves the cursor past the slot. */
  method StoreBinding(image: array<Byte>, cursor: nat, va: nat, a: Address) returns (cursor': nat)
    requires va + 4 <= image.Length && cursor + 8 <= image.Length
    modifies image
    ensures Image(image[..], cursor') == BindSlot(Image(old(image[..]), cursor), va, a)
  {
    StoreSlot(image, cursor, a);
    PatchSite(image, va, cursor);
    cursor' := cursor + 8;
  }

  /** The library search for `functionName`: the scan over the directive
      text `text` that tries each declared library in turn and binds the
      first address found. */
  method SearchLibraries(image: array<Byte>, cursor: nat, va: nat, functionName: string, text: string, lookup: Lookup)
      returns (cursor': nat)
    requires ScanDefined(LibraryNames(text), functionName, lookup) && va + 4 <= image.Length
    requires Resolve(LibraryNames(text), functionName, lookup).Some? ==> cursor + 8 <= image.Length
    modifies image
    ensures Image(image[..], cursor') ==
            LibraryBinding(Image(old(image[..]), cursor), va, functionName, LibraryNames(text), lookup)
  {
    ghost var names := LibraryNames(text);
    ghost var st0 := Image(image[..], cursor);
    cursor' := cursor;
    var pos1 := Find(text, DefaultLibMarker, 0);
    while pos1.Some?
      invariant pos1.Some? ==> OccursAt(text, DefaultLibMarker, pos1.value)
      invariant ScanDefined(LibraryNamesFrom(text, pos1), functionName, lookup)
      invariant Resolve(names, functionName, lookup) == Resolve(LibraryNamesFrom(text, pos1), functionName, lookup)
      invariant Image(image[..], cursor') == st0
      decreases if pos1.Some? then |text| - pos1.value + 1 else 0
    {
      ScanStep(text, pos1.value, functionName, lookup);
      var pos2 := pos1.value + |DefaultLibMarker|;
      var libraryName := text[pos2..NameEnd(text, pos2)];
      libraryName := DllName(libraryName);
      var functionPointer := lookup(libraryName, functionName);
      if functionPointer.Some? {
        LibraryBindingHit(st0, va, functionName, names, lookup, functionPointer.value);
        cursor' := StoreBinding(image, cursor', va, functionPointer.value);
        return;
      }
      pos1 := Find(text, DefaultLibMarker, pos2 + 1);
    }
    LibraryBindingMiss(st0, va, functionName, names, lookup);
  }

  lemma LibraryBindingHit(st: Image, va: nat, fname: string, names: seq<string>, lookup: Lookup, a: Address)
    requires ScanDefined(names, fname, lookup) && va + 4 <= |st.bytes| && st.cursor + 8 <= |st.bytes|
    requires Resolve(names, fname, lookup) == Some(a)
    ensures LibraryBinding(st, va, fname, names, lookup) == BindSlot(st, va, a)
  {
  }

  lemma LibraryBindingMiss(st: Image, va: nat, fname: string, names: seq<string>, lookup: Lookup)
    requires ScanDefined(names, fname, lookup) && va + 4 <= |st.bytes|
    requires Resolve(names, fname, lookup).None?
    ensures LibraryBinding(st, va, fname, names, lookup) == st
  {
  }

  /** The binding of one external relocation at `va` whose symbol is called
      `symbolName`, with the directive text `text`; `cursor` is the offset
      of `dataPointer`. */
  method BindExternal(image: array<Byte>, cursor: nat, va: nat, symbolName: string, text: string,
                      lookup: Lookup, hostPrint: Address)
      returns (cursor': nat)
    requires ScanDefined(LibraryNames(text), LookupName(symbolName), lookup) && va + 4 <= image.Length
    requires cursor + 8 * SiteSlots(LibraryNames(text), LookupName(symbolName), lookup) <= image.Length
    modifies image
    ensures Image(image[..], cursor') ==
            BindSite(Image(old(image[..]), cursor), va, LookupName(symbolName), LibraryNames(text), lookup, hostPrint)
  {
    var functionName := symbolName;
    if HasImportPrefix(functionName) {
      functionName := functionName[|ImportPrefix|..];
    }
    cursor' := SearchLibraries(image, cursor, va, functionName, text, lookup);
    if Contains(functionName, HostPrintName) {
      cursor' := StoreBinding(image, cursor', va, hostPrint);
    }
  }

  /** The loop over the code relocations that binds every external one. */
  method BindExternals(image: array<Byte>, cursor0: nat, obj: ObjectFile, relocs: seq<Relocation>, text: string,
                       lookup: Lookup, hostPrint: Address)
      returns (cursor: nat)
    requires BindFits(Image(image[..], cursor0), obj, relocs, LibraryNames(text), lookup)
    modifies image
    ensures Image(image[..], cursor) ==
            BindUpTo(Image(old(image[..]), cursor0), obj, relocs, LibraryNames(text), lookup, hostPrint, |relocs|)
  {
    ghost var st0 := Image(image[..], cursor0);
    ghost var names := LibraryNames(text);
    cursor := cursor0;
    for i := 0 to |relocs|
      invariant Image(image[..], cursor) == BindUpTo(st0, obj, relocs, names, lookup, hostPrint, i)
    {
      var r := relocs[i];
      SlotsMonotone(obj, relocs, names, lookup, i + 1, |relocs|);
      if obj.symbols[r.symbol].storageClass == SymClassExternal {
        cursor := BindExternal(image, cursor, r.virtualAddress, obj.symbols[r.symbol].name, text, lookup, hostPrint);
      }
    }
  }

  /** Where the last slot of relocation `j` lies: after the slots of the
      relocations before it and the other slot of its own, if it has two. */
  function LastSlot(st0: Image, obj: ObjectFile, relocs: seq<Relocation>, names: seq<string>, lookup: Lookup, j: nat): nat
    requires SymbolsResolve(obj, relocs) && ExternalsDefined(obj, relocs, names, lookup) && j < |relocs|
    requires IsExternal(obj, relocs[j]) && SiteSlots(names, SiteName(obj, relocs, j), lookup) > 0
  {
    st0.cursor + 8 * SlotsUpTo(obj, relocs, names, lookup, j) + 8 * (SiteSlots(names, SiteName(obj, relocs, j), lookup) - 1)
  }

  /** Relocation `j` is external and binding it writes at least one slot. */
  predicate Binds(obj: ObjectFile, relocs: seq<Relocation>, names: seq<string>, lookup: Lookup, j: nat)
    requires SymbolsResolve(obj, relocs) && ExternalsDefined(obj, relocs, names, lookup) && j < |relocs|
  {
    IsExternal(obj, relocs[j]) && SiteSlots(names, SiteName(obj, relocs, j), lookup) > 0
  }

  /** In `st`, the state after the first `k` relocations are visited,
      relocation `j`, if it is among them and bound to some address, has its
      field reaching its last slot and that slot holding the bound address;
      otherwise its field is as it was in `st0`. */
  predicate SiteBound(st0: Image, st: Image, obj: ObjectFile, relocs: seq<Relocation>, names: seq<string>, lookup: Lookup,
                      hostPrint: Address, k: nat, j: nat)
    requires BindFits(st0, obj, relocs, names, lookup) && k <= |relocs| && j < |relocs|
    requires |st.bytes| == |st0.bytes|
  {
    var va := relocs[j].virtualAddress;
    if j < k && Binds(obj, relocs, names, lookup, j) then
      var slot := LastSlot(st0, obj, relocs, names, lookup, j);
      slot + 8 <= |st.bytes| &&
      Field(st.bytes, va) == Displacement(slot, va) &&
      Slot(st.bytes, slot) == BoundAddress(names, SiteName(obj, relocs, j), lookup, hostPrint).value
    else
      st.bytes[va..va + 4] == st0.bytes[va..va + 4]
  }

  /** Visiting relocation `k - 1` leaves the field of any other relocation
      alone. */
  lemma StepKeepsField(st0: Image, prev: Image, obj: ObjectFile, relocs: seq<Relocation>, names: seq<string>,
                       lookup: Lookup, hostPrint: Address, k: nat, j: nat)
    requires BindFits(st0, obj, relocs, names, lookup) && FieldsDisjoint(relocs) && 0 < k <= |relocs| && j < |relocs|
    requires |prev.bytes| == |st0.bytes| && prev.cursor == st0.cursor + 8 * SlotsUpTo(obj, relocs, names, lookup, k - 1)
    requires j != k - 1
    ensures var va := relocs[j].virtualAddress;
      BindStep(st0, prev, obj, relocs, names, lookup, hostPrint, k).bytes[va..va + 4] == prev.bytes[va..va + 4]
  {
    var va := relocs[j].virtualAddress;
    var vb := relocs[k - 1].virtualAddress;
    if IsExternal(obj, relocs[k - 1]) {
      FieldsApart(relocs, j, k - 1);
      StepKeepsOtherField(st0, prev, obj, relocs, names, lookup, hostPrint, k, va);
    } else {
      BindStepOther(st0, prev, obj, relocs, names, lookup, hostPrint, k);
    }
  }

  /** The fields of two different relocations do not overlap. */
  lemma FieldsApart(relocs: seq<Relocation>, i: nat, j: nat)
    requires FieldsDisjoint(relocs) && i < |relocs| && j < |relocs| && i != j
    ensures relocs[i].virtualAddress + 4 <= relocs[j].virtualAddress ||
            relocs[j].virtualAddress + 4 <= relocs[i].virtualAddress
  {
    if j < i {
      assert relocs[j].virtualAddress + 4 <= relocs[i].virtualAddress ||
             relocs[i].virtualAddress + 4 <= relocs[j].virtualAddress;
    }
  }

  /** Visiting an external relocation leaves alone a field of the code
      that does not overlap its own. */
  lemma StepKeepsOtherField(st0: Image, prev: Image, obj: ObjectFile, relocs: seq<Relocation>, names: seq<string>,
                            lookup: Lookup, hostPrint: Address, k: nat, other: nat)
    requires BindFits(st0, obj, relocs, names, lookup) && 0 < k <= |relocs|
    requires |prev.bytes| == |st0.bytes| && prev.cursor == st0.cursor + 8 * SlotsUpTo(obj, relocs, names, lookup, k - 1)
    requires IsExternal(obj, relocs[k - 1])
    requires other + 4 <= st0.cursor
    requires other + 4 <= relocs[k - 1].virtualAddress || relocs[k - 1].virtualAddress + 4 <= other
    ensures BindStep(st0, prev, obj, relocs, names, lookup, hostPrint, k).bytes[other..other + 4] ==
            prev.bytes[other..other + 4]
  {
    BindStepExternal(st0, prev, obj, relocs, names, lookup, hostPrint, k);
    BindSiteKeepsOther(prev, relocs[k - 1].virtualAddress, SiteName(obj, relocs, k - 1), names, lookup, hostPrint, other);
  }

  /** Visiting relocation `k - 1` leaves any slot written before it alone. */
  lemma StepKeepsSlot(st0: Image, prev: Image, obj: ObjectFile, relocs: seq<Relocation>, names: seq<string>,
                      lookup: Lookup, hostPrint: Address, k: nat, off: nat)
    requires BindFits(st0, obj, relocs, names, lookup) && 0 < k <= |relocs|
    requires |prev.bytes| == |st0.bytes| && prev.cursor == st0.cursor + 8 * SlotsUpTo(obj, relocs, names, lookup, k - 1)
    requires st0.cursor <= off && off + 8 <= st0.cursor + 8 * SlotsUpTo(obj, relocs, names, lookup, k - 1)
    ensures off + 8 <= |prev.bytes|
    ensures Slot(BindStep(st0, prev, obj, relocs, names, lookup, hostPrint, k).bytes, off) == Slot(prev.bytes, off)
  {
    SlotsMonotone(obj, relocs, names, lookup, k - 1, |relocs|);
    if IsExternal(obj, relocs[k - 1]) {
      StepKeepsOtherSlot(st0, prev, obj, relocs, names, lookup, hostPrint, k, off);
    } else {
      BindStepOther(st0, prev, obj, relocs, names, lookup, hostPrint, k);
    }
  }

  /** Visiting an external relocation leaves alone a slot below the cursor. */
  lemma StepKeepsOtherSlot(st0: Image, prev: Image, obj: ObjectFile, relocs: seq<Relocation>, names: seq<string>,
                           lookup: Lookup, hostPrint: Address, k: nat, off: nat)
    requires BindFits(st0, obj, relocs, names, lookup) && 0 < k <= |relocs|
    requires |prev.bytes| == |st0.bytes| && prev.cursor == st0.cursor + 8 * SlotsUpTo(obj, relocs, names, lookup, k - 1)
    requires IsExternal(obj, relocs[k - 1])
    requires st0.cursor <= off && off + 8 <= prev.cursor
    ensures off + 8 <= |prev.bytes|
    ensures Slot(BindStep(st0, prev, obj, relocs, names, lookup, hostPrint, k).bytes, off) == Slot(prev.bytes, off)
  {
    SlotsMonotone(obj, relocs, names, lookup, k - 1, k);
    BindStepExternal(st0, prev, obj, relocs, names, lookup, hostPrint, k);
    BindSiteKeepsSlot(prev, relocs[k - 1].virtualAddress, SiteName(obj, relocs, k - 1), names, lookup, hostPrint, off);
  }

  /** Visiting relocation `k - 1` binds it, when it binds at all, at its last
      slot. */
  lemma StepBinds(st0: Image, prev: Image, obj: ObjectFile, relocs: seq<Relocation>, names: seq<string>,
                  lookup: Lookup, hostPrint: Address, k: nat)
    requires BindFits(st0, obj, relocs, names, lookup) && 0 < k <= |relocs|
    requires |prev.bytes| == |st0.bytes| && prev.cursor == st0.cursor + 8 * SlotsUpTo(obj, relocs, names, lookup, k - 1)
    requires Binds(obj, relocs, names, lookup, k - 1)
    ensures var st := BindStep(st0, prev, obj, relocs, names, lookup, hostPrint, k);
      var slot := LastSlot(st0, obj, relocs, names, lookup, k - 1);
      var va := relocs[k - 1].virtualAddress;
      slot + 8 <= |st.bytes| &&
      Field(st.bytes, va) == Displacement(slot, va) &&
      Slot(st.bytes, slot) == BoundAddress(names, SiteName(obj, relocs, k - 1), lookup, hostPrint).value
  {
    LastSlotAfter(st0, prev.cursor, obj, relocs, names, lookup, k);
    BindStepExternal(st0, prev, obj, relocs, names, lookup, hostPrint, k);
    BindSiteEffect(prev, relocs[k - 1].virtualAddress, SiteName(obj, relocs, k - 1), names, lookup, hostPrint);
  }

  /** The last slot of relocation `k - 1` is the last of those written from
      `cursor`, the cursor after the relocations before it. */
  lemma LastSlotAfter(st0: Image, cursor: nat, obj: ObjectFile, relocs: seq<Relocation>, names: seq<string>,
                      lookup: Lookup, k: nat)
    requires SymbolsResolve(obj, relocs) && ExternalsDefined(obj, relocs, names, lookup) && 0 < k <= |relocs|
    requires cursor == st0.cursor + 8 * SlotsUpTo(obj, relocs, names, lookup, k - 1)
    requires Binds(obj, relocs, names, lookup, k - 1)
    ensures LastSlot(st0, obj, relocs, names, lookup, k - 1) ==
            cursor + 8 * (SiteSlots(names, SiteName(obj, relocs, k - 1), lookup) - 1)
  {
  }

  /** Visiting a relocation that binds nothing changes nothing. */
  lemma StepNoBinding(st0: Image, prev: Image, obj: ObjectFile, relocs: seq<Relocation>, names: seq<string>,
                      lookup: Lookup, hostPrint: Address, k: nat)
    requires BindFits(st0, obj, relocs, names, lookup) && 0 < k <= |relocs|
    requires |prev.bytes| == |st0.bytes| && prev.cursor == st0.cursor + 8 * SlotsUpTo(obj, relocs, names, lookup, k - 1)
    requires !Binds(obj, relocs, names, lookup, k - 1)
    ensures BindStep(st0, prev, obj, relocs, names, lookup, hostPrint, k) == prev
  {
    if IsExternal(obj, relocs[k - 1]) {
      BindStepExternal(st0, prev, obj, relocs, names, lookup, hostPrint, k);
      BindSiteEffect(prev, relocs[k - 1].virtualAddress, SiteName(obj, relocs, k - 1), names, lookup, hostPrint);
    } else {
      BindStepOther(st0, prev, obj, relocs, names, lookup, hostPrint, k);
    }
  }

  /** Visiting relocation `k - 1` establishes what it is bound to. */
  lemma SiteBoundStepSelf(st0: Image, prev: Image, obj: ObjectFile, relocs: seq<Relocation>, names: seq<string>,
                          lookup: Lookup, hostPrint: Address, k: nat)
    requires BindFits(st0, obj, relocs, names, lookup) && 0 < k <= |relocs|
    requires |prev.bytes| == |st0.bytes| && prev.cursor == st0.cursor + 8 * SlotsUpTo(obj, relocs, names, lookup, k - 1)
    requires SiteBound(st0, prev, obj, relocs, names, lookup, hostPrint, k - 1, k - 1)
    ensures SiteBound(st0, BindStep(st0, prev, obj, relocs, names, lookup, hostPrint, k), obj, relocs, names, lookup,
                      hostPrint, k, k - 1)
  {
    if Binds(obj, relocs, names, lookup, k - 1) {
      StepBinds(st0, prev, obj, relocs, names, lookup, hostPrint, k);
    } else {
      StepNoBinding(st0, prev, obj, relocs, names, lookup, hostPrint, k);
    }
  }

  /** Visiting relocation `k - 1` keeps what another relocation is bound
      to. */
  lemma SiteBoundStepOther(st0: Image, prev: Image, obj: ObjectFile, relocs: seq<Relocation>, names: seq<string>,
                           lookup: Lookup, hostPrint: Address, k: nat, j: nat)
    requires BindFits(st0, obj, relocs, names, lookup) && FieldsDisjoint(relocs) && 0 < k <= |relocs| && j < |relocs|
    requires |prev.bytes| == |st0.bytes| && prev.cursor == st0.cursor + 8 * SlotsUpTo(obj, relocs, names, lookup, k - 1)
    requires j != k - 1
    requires SiteBound(st0, prev, obj, relocs, names, lookup, hostPrint, k - 1, j)
    ensures SiteBound(st0, BindStep(st0, prev, obj, relocs, names, lookup, hostPrint, k), obj, relocs, names, lookup,
                      hostPrint, k, j)
  {
    var st := BindStep(st0, prev, obj, relocs, names, lookup, hostPrint, k);
    if j < k - 1 && Binds(obj, relocs, names, lookup, j) {
      StepKeepsBinding(st0, prev, obj, relocs, names, lookup, hostPrint, k, j);
    } else {
      StepKeepsField(st0, prev, obj, relocs, names, lookup, hostPrint, k, j);
    }
    SiteBoundTransfer(st0, prev, st, obj, relocs, names, lookup, hostPrint, k - 1, k, j);
  }

  /** What relocation `j` is bound to carries over to a state with the
      same field and the same last slot. */
  lemma SiteBoundTransfer(st0: Image, a: Image, b: Image, obj: ObjectFile, relocs: seq<Relocation>, names: seq<string>,
                          lookup: Lookup, hostPrint: Address, ka: nat, kb: nat, j: nat)
    requires BindFits(st0, obj, relocs, names, lookup) && ka <= |relocs| && kb <= |relocs| && j < |relocs|
    requires |a.bytes| == |st0.bytes| && |b.bytes| == |st0.bytes| && (j < ka <==> j < kb)
    requires SiteBound(st0, a, obj, relocs, names, lookup, hostPrint, ka, j)
    requires var va := relocs[j].virtualAddress; b.bytes[va..va + 4] == a.bytes[va..va + 4]
    requires j < ka && Binds(obj, relocs, names, lookup, j) ==>
      var slot := LastSlot(st0, obj, relocs, names, lookup, j);
      slot + 8 <= |a.bytes| && Slot(b.bytes, slot) == Slot(a.bytes, slot)
    ensures SiteBound(st0, b, obj, relocs, names, lookup, hostPrint, kb, j)
  {
  }

  /** Visiting relocation `k - 1` keeps the field and the last slot of an
      earlier relocation that binds. */
  lemma StepKeepsBinding(st0: Image, prev: Image, obj: ObjectFile, relocs: seq<Relocation>, names: seq<string>,
                         lookup: Lookup, hostPrint: Address, k: nat, j: nat)
    requires BindFits(st0, obj, relocs, names, lookup) && FieldsDisjoint(relocs) && 0 < k <= |relocs|
    requires |prev.bytes| == |st0.bytes| && prev.cursor == st0.cursor + 8 * SlotsUpTo(obj, relocs, names, lookup, k - 1)
    requires j < k - 1 && Binds(obj, relocs, names, lookup, j)
    ensures var st := BindStep(st0, prev, obj, relocs, names, lookup, hostPrint, k);
      var va := relocs[j].virtualAddress;
      var slot := LastSlot(st0, obj, relocs, names, lookup, j);
      slot + 8 <= |prev.bytes| &&
      st.bytes[va..va + 4] == prev.bytes[va..va + 4] &&
      Slot(st.bytes, slot) == Slot(prev.bytes, slot)
  {
    var slot := LastSlot(st0, obj, relocs, names, lookup, j);
    StepKeepsField(st0, prev, obj, relocs, names, lookup, hostPrint, k, j);
    LastSlotBelow(st0, obj, relocs, names, lookup, j, k - 1);
    StepKeepsSlot(st0, prev, obj, relocs, names, lookup, hostPrint, k, slot);
  }

  /** The last slot of relocation `j` lies among the slots of the first `m`
      relocations, for any `m` past `j`. */
  lemma LastSlotBelow(st0: Image, obj: ObjectFile, relocs: seq<Relocation>, names: seq<string>, lookup: Lookup,
                      j: nat, m: nat)
    requires SymbolsResolve(obj, relocs) && ExternalsDefined(obj, relocs, names, lookup) && j < m <= |relocs|
    requires Binds(obj, relocs, names, lookup, j)
    ensures st0.cursor <= LastSlot(st0, obj, relocs, names, lookup, j)
    ensures LastSlot(st0, obj, relocs, names, lookup, j) + 8 <= st0.cursor + 8 * SlotsUpTo(obj, relocs, names, lookup, m)
  {
    SlotsMonotone(obj, relocs, names, lookup, j + 1, m);
    assert SlotsUpTo(obj, relocs, names, lookup, j + 1) ==
           SlotsUpTo(obj, relocs, names, lookup, j) + SiteSlots(names, SiteName(obj, relocs, j), lookup);
  }

  /** Visiting relocation `k - 1` binds it and keeps what the earlier
      relocations were bound to. */
  lemma SiteBoundStep(st0: Image, prev: Image, obj: ObjectFile, relocs: seq<Relocation>, names: seq<string>,
                      lookup: Lookup, hostPrint: Address, k: nat, j: nat)
    requires BindFits(st0, obj, relocs, names, lookup) && FieldsDisjoint(relocs) && 0 < k <= |relocs| && j < |relocs|
    requires |prev.bytes| == |st0.bytes| && prev.cursor == st0.cursor + 8 * SlotsUpTo(obj, relocs, names, lookup, k - 1)
    requires SiteBound(st0, prev, obj, relocs, names, lookup, hostPrint, k - 1, j)
    ensures SiteBound(st0, BindStep(st0, prev, obj, relocs, names, lookup, hostPrint, k), obj, relocs, names, lookup,
                      hostPrint, k, j)
  {
    if j == k - 1 {
      SiteBoundStepSelf(st0, prev, obj, relocs, names, lookup, hostPrint, k);
    } else {
      SiteBoundStepOther(st0, prev, obj, relocs, names, lookup, hostPrint, k, j);
    }
  }

  /** Binding a site leaves alone any other field below the cursor. */
  lemma BindSiteKeepsOther(st: Image, va: nat, fname: string, names: seq<string>, lookup: Lookup, hostPrint: Address,
                           other: nat)
    requires ScanDefined(names, fname, lookup) && va + 4 <= st.cursor
    requires st.cursor + 8 * SiteSlots(names, fname, lookup) <= |st.bytes|
    requires other + 4 <= st.cursor && (other + 4 <= va || va + 4 <= other)
    ensures BindSite(st, va, fname, names, lookup, hostPrint).bytes[other..other + 4] == st.bytes[other..other + 4]
  {
    match Resolve(names, fname, lookup)
    case Some(a) =>
      BindSlotKeepsOther(st, va, a, other);
      if Contains(fname, HostPrintName) {
        BindSlotKeepsOther(BindSlot(st, va, a), va, hostPrint, other);
      }
    case None =>
      if Contains(fname, HostPrintName) {
        BindSlotKeepsOther(st, va, hostPrint, other);
      }
  }

  /** Binding a slot leaves alone any other field below the cursor. */
  lemma BindSlotKeepsOther(st: Image, va: nat, a: Address, other: nat)
    requires va + 4 <= st.cursor && st.cursor + 8 <= |st.bytes|
    requires other + 4 <= st.cursor && (other + 4 <= va || va + 4 <= other)
    ensures BindSlot(st, va, a).cursor == st.cursor + 8
    ensures BindSlot(st, va, a).bytes[other..other + 4] == st.bytes[other..other + 4]
  {
    BindSlotEffect(st, va, a);
    var b := BindSlot(st, va, a).bytes;
    forall x | other <= x < other + 4
      ensures b[x] == st.bytes[x]
    {
    }
  }

  /** Binding a site leaves alone any slot below the cursor. */
  lemma BindSiteKeepsSlot(st: Image, va: nat, fname: string, names: seq<string>, lookup: Lookup, hostPrint: Address,
                          off: nat)
    requires ScanDefined(names, fname, lookup) && va + 4 <= st.cursor
    requires st.cursor + 8 * SiteSlots(names, fname, lookup) <= |st.bytes|
    requires off + 8 <= st.cursor && va + 4 <= off
    ensures Slot(BindSite(st, va, fname, names, lookup, hostPrint).bytes, off) == Slot(st.bytes, off)
  {
    BindSiteFrame(st, va, fname, names, lookup, hostPrint);
    assert BindSite(st, va, fname, names, lookup, hostPrint).bytes[off..off + 8] == st.bytes[off..off + 8];
  }

  /** After the first `k` relocations are visited, every one of them that
      binds has its field reaching its last slot, which holds the bound
      address, and every other field is as it was. */
  lemma {:induction false} BindSitesBound(st0: Image, obj: ObjectFile, relocs: seq<Relocation>, names: seq<string>,
                                          lookup: Lookup, hostPrint: Address, k: nat, j: nat)
    requires BindFits(st0, obj, relocs, names, lookup) && FieldsDisjoint(relocs) && k <= |relocs| && j < |relocs|
    ensures SiteBound(st0, BindUpTo(st0, obj, relocs, names, lookup, hostPrint, k), obj, relocs, names, lookup,
                      hostPrint, k, j)
  {
    if k > 0 {
      var prev := BindUpTo(st0, obj, relocs, names, lookup, hostPrint, k - 1);
      BindSitesBound(st0, obj, relocs, names, lookup, hostPrint, k - 1, j);
      SiteBoundStep(st0, prev, obj, relocs, names, lookup, hostPrint, k, j);
    }
  }

  /** The external phase as a whole: each relocation's field ends up as
      `SiteBound` says. */
  lemma ExternalsBound(st0: Image, obj: ObjectFile, relocs: seq<Relocation>, names: seq<string>,
                       lookup: Lookup, hostPrint: Address)
    requires BindFits(st0, obj, relocs, names, lookup) && FieldsDisjoint(relocs)
    ensures forall j :: 0 <= j < |relocs| ==>
      SiteBound(st0, BindUpTo(st0, obj, relocs, names, lookup, hostPrint, |relocs|), obj, relocs, names, lookup,
                hostPrint, |relocs|, j)
  {
    forall j | 0 <= j < |relocs|
      ensures SiteBound(st0, BindUpTo(st0, obj, relocs, names, lookup, hostPrint, |relocs|), obj, relocs, names, lookup,
                        hostPrint, |relocs|, j)
    {
      BindSitesBound(st0, obj, relocs, names, lookup, hostPrint, |relocs|, j);
    }
  }

  /** Visiting relocation `k - 1` changes no byte outside the slots and
      outside its field. */
  lemma StepFrame(st0: Image, prev: Image, obj: ObjectFile, relocs: seq<Relocation>, names: seq<string>,
                  lookup: Lookup, hostPrint: Address, k: nat, x: nat)
    requires BindFits(st0, obj, relocs, names, lookup) && 0 < k <= |relocs|
    requires |prev.bytes| == |st0.bytes| && prev.cursor == st0.cursor + 8 * SlotsUpTo(obj, relocs, names, lookup, k - 1)
    requires x < |st0.bytes| && !InField(relocs[k - 1], x)
    requires x < st0.cursor || st0.cursor + 8 * SlotsUpTo(obj, relocs, names, lookup, |relocs|) <= x
    ensures BindStep(st0, prev, obj, relocs, names, lookup, hostPrint, k).bytes[x] == prev.bytes[x]
  {
    if IsExternal(obj, relocs[k - 1]) {
      BindStepExternal(st0, prev, obj, relocs, names, lookup, hostPrint, k);
      SlotsMonotone(obj, relocs, names, lookup, k - 1, k);
      BindSiteFrame(prev, relocs[k - 1].virtualAddress, SiteName(obj, relocs, k - 1), names, lookup, hostPrint);
    } else {
      BindStepOther(st0, prev, obj, relocs, names, lookup, hostPrint, k);
    }
  }

  /** The external phase changes no byte outside the slots it writes and
      outside the relocation fields. */
  lemma {:induction false} BindExternalsFrame(st0: Image, obj: ObjectFile, relocs: seq<Relocation>, names: seq<string>,
                                              lookup: Lookup, hostPrint: Address, k: nat, x: nat)
    requires BindFits(st0, obj, relocs, names, lookup) && k <= |relocs|
    requires x < |st0.bytes| && forall m :: 0 <= m < |relocs| ==> !InField(relocs[m], x)
    requires x < st0.cursor || st0.cursor + 8 * SlotsUpTo(obj, relocs, names, lookup, |relocs|) <= x
    ensures BindUpTo(st0, obj, relocs, names, lookup, hostPrint, k).bytes[x] == st0.bytes[x]
  {
    if k > 0 {
      BindExternalsFrame(st0, obj, relocs, names, lookup, hostPrint, k - 1, x);
      StepFrame(st0, BindUpTo(st0, obj, relocs, names, lookup, hostPrint, k - 1), obj, relocs, names, lookup,
                hostPrint, k, x);
    }
  }

  /** The external phase leaves alone a region below its starting cursor
      that holds no relocation field. */
  lemma BindExternalsKeepRegion(st0: Image, obj: ObjectFile, relocs: seq<Relocation>, names: seq<string>,
                                lookup: Lookup, hostPrint: Address, lo: nat, hi: nat)
    requires BindFits(st0, obj, relocs, names, lookup)
    requires FieldsBelow(relocs, lo) && lo <= hi <= st0.cursor
    ensures BindUpTo(st0, obj, relocs, names, lookup, hostPrint, |relocs|).bytes[lo..hi] == st0.bytes[lo..hi]
  {
    var st := BindUpTo(st0, obj, relocs, names, lookup, hostPrint, |relocs|);
    forall x | lo <= x < hi
      ensures st.bytes[x] == st0.bytes[x]
    {
      BindExternalsFrame(st0, obj, relocs, names, lookup, hostPrint, |relocs|, x);
    }
  }

  /** The external phase leaves alone the field of a relocation that binds
      nothing. */
  lemma BindExternalsKeepField(st0: Image, obj: ObjectFile, relocs: seq<Relocation>, names: seq<string>,
                               lookup: Lookup, hostPrint: Address, j: nat)
    requires BindFits(st0, obj, relocs, names, lookup) && FieldsDisjoint(relocs)
    requires j < |relocs| && !Binds(obj, relocs, names, lookup, j)
    ensures var va := relocs[j].virtualAddress;
      va + 4 <= st0.cursor &&
      BindUpTo(st0, obj, relocs, names, lookup, hostPrint, |relocs|).bytes[va..va + 4] == st0.bytes[va..va + 4]
  {
    BindSitesBound(st0, obj, relocs, names, lookup, hostPrint, |relocs|, j);
  }

  /** No external relocation is bound twice: no symbol that a declared
      library exports is also named like the host callback. */
  predicate SingleBindings(obj: ObjectFile, relocs: seq<Relocation>, names: seq<string>, lookup: Lookup)
    requires SymbolsResolve(obj, relocs) && ExternalsDefined(obj, relocs, names, lookup)
  {
    forall k :: 0 <= k < |relocs| && IsExternal(obj, relocs[k]) ==> SiteSlots(names, SiteName(obj, relocs, k), lookup) <= 1
  }

  /** The slots the first `k` relocations take are at most two per external
      relocation, and at most the one per external relocation the layout
      reserves when no relocation is bound twice. */
  lemma {:induction false} SlotsWithinReservation(obj: ObjectFile, relocs: seq<Relocation>, names: seq<string>,
                                                  lookup: Lookup, k: nat)
    requires SymbolsResolve(obj, relocs) && ExternalsDefined(obj, relocs, names, lookup) && k <= |relocs|
    ensures SlotsUpTo(obj, relocs, names, lookup, k) <= 2 * CountExternal(obj, relocs[..k])
    ensures SingleBindings(obj, relocs, names, lookup) ==>
      SlotsUpTo(obj, relocs, names, lookup, k) <= CountExternal(obj, relocs[..k])
  {
    if k > 0 {
      SlotsWithinReservation(obj, relocs, names, lookup, k - 1);
      assert relocs[..k][..k - 1] == relocs[..k - 1];
      assert relocs[..k][k - 1] == relocs[k - 1];
    }
  }
}
