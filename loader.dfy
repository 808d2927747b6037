/**
  The whole in-memory link of one object file: choose the sections, plan
  the image size, reserve a zero-filled image, copy the code, place the
  static data, bind the externals.
 */
module Loader {
  import opened Wrappers
  import opened Bytes
  import opened Memory
  import opened Directives
  import opened Coff
  import opened Layout
  import opened Statics
  import opened Externals

  /** Why loading stops before anything is written. */
  datatype LoadError = SectionNotFound

  /** The freshly reserved image: committed pages read as zero. */
  function Zeros(n: nat): (z: seq<Byte>)
    ensures |z| == n && forall i :: 0 <= i < n ==> z[i] == 0
  {
    seq(n, _ => 0)
  }

  function TextOf(obj: ObjectFile, roles: Roles): Section
    requires roles.text < |obj.sections|
  {
    obj.sections[roles.text]
  }

  function RelocsOf(obj: ObjectFile, roles: Roles): seq<Relocation>
    requires roles.text < |obj.sections|
  {
    TextOf(obj, roles).relocations
  }

  predicate RolesIn(obj: ObjectFile, roles: Roles)
  {
    roles.text < |obj.sections| && roles.readOnlyData < |obj.sections| &&
    (roles.directive.Some? ==> roles.directive.value < |obj.sections|)
  }

  /** The bytes of the directive section; none when the object has no
      directive section, which only a link without external relocations
      gets through. */
  function DirectiveData(obj: ObjectFile, roles: Roles): seq<Byte>
    requires RolesIn(obj, roles)
  {
    match roles.directive
    case Some(d) => obj.sections[d].data
    case None => []
  }

  /** The library names declared in the directive section. */
  function NamesOf(obj: ObjectFile, roles: Roles): seq<string>
    requires RolesIn(obj, roles)
  {
    LibraryNames(DirectiveText(DirectiveData(obj, roles)))
  }

  /** `totalSize` as planned for these sections. */
  function ImageSize(obj: ObjectFile, roles: Roles): nat
    requires RolesIn(obj, roles) && SymbolsResolve(obj, RelocsOf(obj, roles))
  {
    RequiredSize(obj, RelocsOf(obj, roles), |TextOf(obj, roles).data|, |obj.sections[roles.readOnlyData].data|) % Two32
  }

  /** What the link needs to stay inside the object file and the image:
      every relocation names a symbol and patches a field inside the code;
      every static entry can be copied; every library search is defined;
      and the code, the static entries and the slots fit in the image. */
  predicate LinkDefined(obj: ObjectFile, roles: Roles, lookup: Lookup)
    requires RolesIn(obj, roles)
  {
    var text := TextOf(obj, roles);
    var relocs := RelocsOf(obj, roles);
    SymbolsResolve(obj, relocs) && FieldsBelow(relocs, |text.data|) &&
    EntriesPlaceable(obj, StaticEntries(obj, relocs)) &&
    ExternalsDefined(obj, relocs, NamesOf(obj, roles), lookup) &&
    var es := StaticEntries(obj, relocs);
    |text.data| + Span(obj, es, |es|) + 8 * SlotsUpTo(obj, relocs, NamesOf(obj, roles), lookup, |relocs|) <=
      ImageSize(obj, roles)
  }

  /** An external relocation would read the directive section, and there
      is none. */
  predicate DirectiveNeeded(obj: ObjectFile, roles: Roles)
    requires RolesIn(obj, roles) && SymbolsResolve(obj, RelocsOf(obj, roles))
  {
    roles.directive.None? && CountExternal(obj, RelocsOf(obj, roles)) > 0
  }

  /** The link is defined whenever the sections it reads are found. */
  predicate Linkable(obj: ObjectFile, lookup: Lookup)
  {
    match SectionRoles(obj.sections)
    case None => true
    case Some(roles) =>
      SymbolsResolve(obj, RelocsOf(obj, roles)) &&
      (DirectiveNeeded(obj, roles) || LinkDefined(obj, roles, lookup))
  }

  /** The image after the code is copied to its start; the cursor is past
      the code. */
  function TextCopied(obj: ObjectFile, roles: Roles): (st: Image)
    requires RolesIn(obj, roles) && SymbolsResolve(obj, RelocsOf(obj, roles))
    requires |TextOf(obj, roles).data| <= ImageSize(obj, roles)
    ensures |st.bytes| == ImageSize(obj, roles) && st.cursor == |TextOf(obj, roles).data|
    ensures st.bytes[..|TextOf(obj, roles).data|] == TextOf(obj, roles).data
    ensures forall i :: |TextOf(obj, roles).data| <= i < |st.bytes| ==> st.bytes[i] == 0
  {
    Image(WriteAt(Zeros(ImageSize(obj, roles)), 0, TextOf(obj, roles).data), |TextOf(obj, roles).data|)
  }

  /** The image after the static entries are placed. */
  function StaticsPlaced(obj: ObjectFile, roles: Roles, lookup: Lookup): (st: Image)
    requires RolesIn(obj, roles) && LinkDefined(obj, roles, lookup)
    ensures |st.bytes| == ImageSize(obj, roles)
    ensures var es := StaticEntries(obj, RelocsOf(obj, roles));
      st.cursor == |TextOf(obj, roles).data| + Span(obj, es, |es|)
  {
    var relocs := RelocsOf(obj, roles);
    PlaceStaticsUpTo(TextCopied(obj, roles), obj, relocs, StaticEntries(obj, relocs), |StaticEntries(obj, relocs)|)
  }

  /** The linked image: the externals bound after the static entries. */
  function Linked(obj: ObjectFile, roles: Roles, lookup: Lookup, hostPrint: Address): (st: Image)
    requires RolesIn(obj, roles) && LinkDefined(obj, roles, lookup)
    ensures |st.bytes| == ImageSize(obj, roles)
  {
    var relocs := RelocsOf(obj, roles);
    BindUpTo(StaticsPlaced(obj, roles, lookup), obj, relocs, NamesOf(obj, roles), lookup, hostPrint, |relocs|)
  }

  /** The outcome of loading: the linked image, or the reason it could not
      be built. */
  function LoadSpec(obj: ObjectFile, lookup: Lookup, hostPrint: Address): Result<seq<Byte>, LoadError>
    requires Linkable(obj, lookup)
  {
    match SectionRoles(obj.sections)
    case None => Failure(SectionNotFound)
    case Some(roles) =>
      if DirectiveNeeded(obj, roles) then Failure(SectionNotFound)
      else Success(Linked(obj, roles, lookup, hostPrint).bytes)
  }

  /** Loading fails exactly when the code or the read-only data section is
      missing, or when the directive section is missing and some code
      relocation is external; otherwise the image has the planned size. */
  lemma LoadOutcome(obj: ObjectFile, lookup: Lookup, hostPrint: Address)
    requires Linkable(obj, lookup)
    ensures LoadSpec(obj, lookup, hostPrint).Failure? <==>
      match SectionRoles(obj.sections)
      case None => true
      case Some(roles) =>
        roles.directive.None? &&
        exists k :: 0 <= k < |RelocsOf(obj, roles)| && IsExternal(obj, RelocsOf(obj, roles)[k])
    ensures match SectionRoles(obj.sections)
      case None => true
      case Some(roles) =>
        LoadSpec(obj, lookup, hostPrint).Success? ==> |LoadSpec(obj, lookup, hostPrint).value| == ImageSize(obj, roles)
  {
  }

  /** `LoadExecute` up to the point where the image is complete: find the
      sections, plan and reserve the image, copy the code, place the static
      data, bind the externals. */
  method LoadImage(obj: ObjectFile, lookup: Lookup, hostPrint: Address) returns (r: Result<seq<Byte>, LoadError>)
    requires Linkable(obj, lookup)
    ensures r == LoadSpec(obj, lookup, hostPrint)
  {
    var roles := FindSections(obj.sections);
    if roles.None? {
      return Failure(SectionNotFound);
    }
    var rs := roles.value;
    var textSection := obj.sections[rs.text];
    var rdataSection := obj.sections[rs.readOnlyData];
    var relocs := textSection.relocations;
    if rs.directive.None? && CountExternal(obj, relocs) > 0 {
      return Failure(SectionNotFound);
    }
    var totalSize := PlanImageSize(obj, relocs, |textSection.data|, |rdataSection.data|);
    var image := new Byte[totalSize](_ => 0);
    assert image[..] == Zeros(totalSize);
    CopyBytes(image, 0, textSection.data);
    var cursor := |textSection.data|;
    assert Image(image[..], cursor) == TextCopied(obj, rs);
    var staticSymbols := CollectStaticSymbols(obj, relocs);
    cursor := PlaceStatics(image, cursor, obj, relocs, staticSymbols);
    assert Image(image[..], cursor) == StaticsPlaced(obj, rs, lookup);
    cursor := BindExternals(image, cursor, obj, relocs, DirectiveText(DirectiveData(obj, rs)), lookup, hostPrint);
    return Success(image[..]);
  }

  /** No byte of the code outside the relocation fields changes: the
      linked image starts with the code as the object file holds it. */
  lemma TextKept(obj: ObjectFile, roles: Roles, lookup: Lookup, hostPrint: Address, x: nat)
    requires RolesIn(obj, roles) && LinkDefined(obj, roles, lookup)
    requires x < |TextOf(obj, roles).data|
    requires forall m :: 0 <= m < |RelocsOf(obj, roles)| ==> !InField(RelocsOf(obj, roles)[m], x)
    ensures Linked(obj, roles, lookup, hostPrint).bytes[x] == TextOf(obj, roles).data[x]
  {
    var relocs := RelocsOf(obj, roles);
    var es := StaticEntries(obj, relocs);
    var text := TextOf(obj, roles).data;
    var st1 := TextCopied(obj, roles);
    var st2 := StaticsPlaced(obj, roles, lookup);
    assert st1.bytes[x] == st1.bytes[0..|text|][x] == text[x];
    assert !InSomeField(relocs, x);
    PlaceStaticsFrame(st1, obj, relocs, es, |es|);
    BindExternalsFrame(st2, obj, relocs, NamesOf(obj, roles), lookup, hostPrint, |relocs|, x);
  }

  /** An external relocation bound to some address reaches, in the linked
      image, its last slot, which holds that address. */
  lemma ExternalFieldLinked(obj: ObjectFile, roles: Roles, lookup: Lookup, hostPrint: Address, j: nat)
    requires RolesIn(obj, roles) && LinkDefined(obj, roles, lookup) && FieldsDisjoint(RelocsOf(obj, roles))
    requires j < |RelocsOf(obj, roles)| && Binds(obj, RelocsOf(obj, roles), NamesOf(obj, roles), lookup, j)
    ensures var relocs := RelocsOf(obj, roles);
      var names := NamesOf(obj, roles);
      var slot := LastSlot(StaticsPlaced(obj, roles, lookup), obj, relocs, names, lookup, j);
      var va := relocs[j].virtualAddress;
      var img := Linked(obj, roles, lookup, hostPrint).bytes;
      slot + 8 <= |img| && va + 4 <= |img| &&
      Field(img, va) == Displacement(slot, va) &&
      Slot(img, slot) == BoundAddress(names, SiteName(obj, relocs, j), lookup, hostPrint).value
  {
    var relocs := RelocsOf(obj, roles);
    BindSitesBound(StaticsPlaced(obj, roles, lookup), obj, relocs, NamesOf(obj, roles), lookup, hostPrint, |relocs|, j);
  }
}
