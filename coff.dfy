/**
  The parsed object file the loader works from, as the object-file reader
  hands it over: sections with their bytes (the code section also with its
  relocations), and the symbol table.  Also the choice of the code, directive
  and read-only data sections by name.
 */
module Coff {
  import opened Wrappers
  import opened Bytes
  import opened Directives

  /** `IMAGE_SYM_CLASS_EXTERNAL`: a symbol defined in another module. */
  const SymClassExternal: nat := 2
  /** `IMAGE_SYM_CLASS_STATIC`: a symbol local to this object. */
  const SymClassStatic: nat := 3

  const TextName: string := ".text"
  const DirectiveName: string := ".drectve"
  const ReadOnlyDataName: string := ".rdata"

  /** An `IMAGE_REL_AMD64_REL32` relocation of the code section: the 4-byte
      field at `virtualAddress` must reach `symbol`. The reader has already
      resolved the symbol-table index to the symbol's position in `symbols`. */
  datatype Relocation = Relocation(virtualAddress: nat, symbol: nat)

  datatype Section = Section(name: string, data: seq<Byte>, relocations: seq<Relocation>)

  /** A symbol-table entry: `value` is its offset within section number
      `sectionNumber` (numbered from 1); `index` is its symbol-table index. */
  datatype Symbol = Symbol(name: string, storageClass: nat, sectionNumber: nat, value: nat, index: nat)

  datatype ObjectFile = ObjectFile(sections: seq<Section>, symbols: seq<Symbol>)

  /** Every relocation names a symbol of the table. */
  predicate SymbolsResolve(obj: ObjectFile, relocs: seq<Relocation>)
  {
    forall k :: 0 <= k < |relocs| ==> relocs[k].symbol < |obj.symbols|
  }

  predicate IsExternal(obj: ObjectFile, r: Relocation)
    requires r.symbol < |obj.symbols|
  {
    obj.symbols[r.symbol].storageClass == SymClassExternal
  }

  predicate IsStatic(obj: ObjectFile, r: Relocation)
    requires r.symbol < |obj.symbols|
  {
    obj.symbols[r.symbol].storageClass == SymClassStatic
  }

  /** Byte `x` of the image lies in the 4-byte field that `r` patches. */
  predicate InField(r: Relocation, x: int)
  {
    r.virtualAddress <= x < r.virtualAddress + 4
  }

  /** Byte `x` lies in the field of one of the relocations. */
  ghost predicate InSomeField(relocs: seq<Relocation>, x: int)
  {
    exists k :: 0 <= k < |relocs| && InField(relocs[k], x)
  }

  /** Every relocation field lies below offset `size`. */
  predicate FieldsBelow(relocs: seq<Relocation>, size: nat)
  {
    forall k :: 0 <= k < |relocs| ==> relocs[k].virtualAddress + 4 <= size
  }

  /** No two relocations patch overlapping fields. */
  predicate FieldsDisjoint(relocs: seq<Relocation>)
  {
    forall i, j :: 0 <= i < j < |relocs| ==>
      relocs[i].virtualAddress + 4 <= relocs[j].virtualAddress ||
      relocs[j].virtualAddress + 4 <= relocs[i].virtualAddress
  }

  /** The last of the first `n` sections whose name contains `pat`. */
  function LastNamed(sections: seq<Section>, pat: string, n: nat): (r: Option<nat>)
    requires n <= |sections|
    ensures r.Some? ==> r.value < n && Contains(sections[r.value].name, pat)
    ensures forall j :: (if r.Some? then r.value + 1 else 0) <= j < n ==> !Contains(sections[j].name, pat)
  {
    if n == 0 then None
    else if Contains(sections[n - 1].name, pat) then Some(n - 1)
    else LastNamed(sections, pat, n - 1)
  }

  /** The sections the loader works with. The directive section is
      optional: it is read only when an external relocation is bound. */
  datatype Roles = Roles(text: nat, directive: Option<nat>, readOnlyData: nat)

  /** The code, directive and read-only data sections, each the last one
      whose name contains `.text`, `.drectve` and `.rdata`; None when the
      code or the read-only data section is missing. */
  function SectionRoles(sections: seq<Section>): (r: Option<Roles>)
    ensures r.Some? ==> r.value.text < |sections| && r.value.readOnlyData < |sections|
    ensures r.Some? && r.value.directive.Some? ==> r.value.directive.value < |sections|
  {
    match (LastNamed(sections, TextName, |sections|), LastNamed(sections, ReadOnlyDataName, |sections|))
    case (Some(t), Some(r)) => Some(Roles(t, LastNamed(sections, DirectiveName, |sections|), r))
    case _ => None
  }

  /** The scan over all sections that picks the three by name. */
  method FindSections(sections: seq<Section>) returns (roles: Option<Roles>)
    ensures roles == SectionRoles(sections)
  {
    var text, directive, readOnlyData: Option<nat> := None, None, None;
    for i := 0 to |sections|
      invariant text == LastNamed(sections, TextName, i)
      invariant directive == LastNamed(sections, DirectiveName, i)
      invariant readOnlyData == LastNamed(sections, ReadOnlyDataName, i)
    {
      if Contains(sections[i].name, TextName) {
        text := Some(i);
      }
      if Contains(sections[i].name, DirectiveName) {
        directive := Some(i);
      }
      if Contains(sections[i].name, ReadOnlyDataName) {
        readOnlyData := Some(i);
      }
    }
    if text.Some? && readOnlyData.Some? {
      roles := Some(Roles(text.value, directive, readOnlyData.value));
    } else {
      roles := None;
    }
  }

  /** No section's name contains `pat`. */
  predicate NoSectionNamed(sections: seq<Section>, pat: string)
  {
    forall j :: 0 <= j < |sections| ==> !Contains(sections[j].name, pat)
  }

  /** Each role is a section whose name contains the role's name, and no later
      section's name does; the directive role is missing exactly when no
      section's name contains `.drectve`; the roles are missing exactly when
      `.text` or `.rdata` occurs in no section name. */
  lemma SectionRolesSpec(sections: seq<Section>)
    ensures SectionRoles(sections).None? <==>
      NoSectionNamed(sections, TextName) || NoSectionNamed(sections, ReadOnlyDataName)
    ensures match SectionRoles(sections)
      case Some(roles) =>
        roles.text < |sections| && Contains(sections[roles.text].name, TextName) &&
        roles.readOnlyData < |sections| && Contains(sections[roles.readOnlyData].name, ReadOnlyDataName) &&
        (forall j :: roles.text < j < |sections| ==> !Contains(sections[j].name, TextName)) &&
        (forall j :: roles.readOnlyData < j < |sections| ==> !Contains(sections[j].name, ReadOnlyDataName)) &&
        (match roles.directive
         case Some(d) =>
           d < |sections| && Contains(sections[d].name, DirectiveName) &&
           forall j :: d < j < |sections| ==> !Contains(sections[j].name, DirectiveName)
         case None => NoSectionNamed(sections, DirectiveName))
      case None => true
  {
    var t := LastNamed(sections, TextName, |sections|);
    var r := LastNamed(sections, ReadOnlyDataName, |sections|);
    if t.Some? {
      assert !NoSectionNamed(sections, TextName) by {
        assert Contains(sections[t.value].name, TextName);
      }
    }
    if r.Some? {
      assert !NoSectionNamed(sections, ReadOnlyDataName) by {
        assert Contains(sections[r.value].name, ReadOnlyDataName);
      }
    }
  }
}
