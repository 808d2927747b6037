/**
  Layout planning: the size of the single region that holds the code, the
  static data and one 8-byte pointer slot per external relocation.
 */
module Layout {
  import opened Bytes
  import opened Coff

  /** The size of one external pointer slot (`sizeof(PVOID)`). */
  const SlotSize: nat := 8

  /** How many of the relocations refer to an external symbol. */
  function CountExternal(obj: ObjectFile, relocs: seq<Relocation>): (n: nat)
    requires SymbolsResolve(obj, relocs)
    ensures n <= |relocs|
    ensures n == 0 <==> forall k :: 0 <= k < |relocs| ==> !IsExternal(obj, relocs[k])
  {
    if relocs == [] then 0
    else
      var init := relocs[..|relocs| - 1];
      assert forall k :: 0 <= k < |init| ==> init[k] == relocs[k];
      CountExternal(obj, init) + if IsExternal(obj, relocs[|relocs| - 1]) then 1 else 0
  }

  /** The count adds up over consecutive runs of relocations. With
      `CountExternalOne` this fixes the count as the number of external
      relocations. */
  lemma {:induction false} CountExternalAdds(obj: ObjectFile, a: seq<Relocation>, b: seq<Relocation>)
    requires SymbolsResolve(obj, a) && SymbolsResolve(obj, b)
    ensures SymbolsResolve(obj, a + b)
    ensures CountExternal(obj, a + b) == CountExternal(obj, a) + CountExternal(obj, b)
    decreases |b|
  {
    if b != [] {
      var init := b[..|b| - 1];
      assert forall k :: 0 <= k < |init| ==> init[k] == b[k];
      CountExternalAdds(obj, a, init);
      assert (a + b)[..|a + b| - 1] == a + init;
      assert (a + b)[|a + b| - 1] == b[|b| - 1];
    } else {
      assert a + b == a;
    }
  }

  /** A single relocation counts one exactly when it is external. */
  lemma CountExternalOne(obj: ObjectFile, r: Relocation)
    requires r.symbol < |obj.symbols|
    ensures CountExternal(obj, [r]) == if IsExternal(obj, r) then 1 else 0
  {
    assert [r][..0] == [];
  }

  /** The unbounded size the layout asks for. */
  function RequiredSize(obj: ObjectFile, relocs: seq<Relocation>, textSize: nat, readOnlySize: nat): nat
    requires SymbolsResolve(obj, relocs)
  {
    textSize + readOnlySize + SlotSize * CountExternal(obj, relocs)
  }

  lemma AddModulo(a: nat, b: nat)
    ensures (a % Two32 + b) % Two32 == (a + b) % Two32
  {
    var q := a / Two32;
    assert a == q * Two32 + a % Two32;
    assert a + b == q * Two32 + (a % Two32 + b);
  }

  /** `totalSize`, a `uint32_t`: the code size plus the read-only data size,
      then 8 more for each external relocation, all modulo 2^32. */
  method PlanImageSize(obj: ObjectFile, relocs: seq<Relocation>, textSize: nat, readOnlySize: nat)
      returns (totalSize: nat)
    requires SymbolsResolve(obj, relocs)
    ensures totalSize == RequiredSize(obj, relocs, textSize, readOnlySize) % Two32
    ensures RequiredSize(obj, relocs, textSize, readOnlySize) < Two32 ==>
              totalSize == RequiredSize(obj, relocs, textSize, readOnlySize)
  {
    totalSize := (textSize + readOnlySize) % Two32;
    for i := 0 to |relocs|
      invariant totalSize == (textSize + readOnlySize + SlotSize * CountExternal(obj, relocs[..i])) % Two32
    {
      assert relocs[..i + 1][..i] == relocs[..i];
      if IsExternal(obj, relocs[i]) {
        AddModulo(textSize + readOnlySize + SlotSize * CountExternal(obj, relocs[..i]), SlotSize);
        totalSize := (totalSize + SlotSize) % Two32;
      }
    }
    assert relocs[..|relocs|] == relocs;
  }
}
