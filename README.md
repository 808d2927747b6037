# COFFInjector's in-memory linker, modelled in Dafny

COFFInjector loads a COFF object file (the output of a C compiler for x64
Windows) into one executable region and runs it. This project models the
linking that `LoadExecute` does before the jump. It builds a flat byte image
laid out as

    [ .text bytes ][ static data copies ][ 8-byte external pointer slots ]

and patches the 4-byte field of every static relocation, and of every
external relocation that binds. All other fields keep the bytes the object file
holds. Each patch is an `IMAGE_REL_AMD64_REL32` displacement: the target offset
minus the end of the field, modulo 2^32.

All positions are image offsets. The cursor is `dataPointer - allData`, so no
real address appears. The operating system's loader, `LoadLibraryA` followed by
`GetProcAddress`, becomes a lookup parameter
`(dll name, function name) -> Option<ProcAddress>`. `ProcAddress` is the
non-zero addresses, so `Some(a)` is always a non-NULL address, and `None` is the
NULL result the source treats as a miss. The address of the host's
`COFF_API_Print` becomes a parameter `hostPrint`.

Modules, in dependency order:

- `Wrappers`: `Option` and `Result`.
- `Bytes`: the byte type, little-endian encoding and decoding, and the REL32
  `Displacement`.
- `Directives`: `std::string::find`, the `__imp_` prefix, the directive text
  up to its first NUL, the `/DEFAULTLIB:"…"` scan and the `lib` to `dll`
  rename.
- `Coff`: the parsed object file (sections, relocations, symbols) and the
  choice of the `.text`, `.drectve` and `.rdata` sections.
- `Memory`: the image state (bytes plus cursor) and the three writes:
  - a block copy;
  - a REL32 patch;
  - an 8-byte slot.
- `Layout`: the `totalSize` computation, a `uint32_t` that wraps modulo 2^32.
- `Statics`: collecting static entries, copying each to the cursor and
  re-patching every static relocation that names the same symbol index.
- `Externals`: binding each external relocation. The library search takes
  the first hit. A symbol whose name contains `COFF_API_Print` is also bound
  to the host callback, and that second slot is the one the field reaches.
- `Loader`: the whole sequence over a zero-filled array (`LoadImage`) and its
  specification (`LoadSpec`).

The code works by changing a buffer in place. Every loop is a `method`. The
loops that write the image work on an `array<Byte>` and a cursor. The loops
that only read (the section scan, the size loop and the collection of static
entries) work on sequences. Each method is proved equal to a specification
function defined by recursion, over a prefix of its input except for the
library search, which recurses over the rest of the library list:

- `PlaceStaticsUpTo` for the static-placement loop;
- `PatchReferences` for the inner patch loop;
- `BindUpTo` for the external-binding loop;
- `LibraryBinding` for the library search;
- `StaticEntries` for collecting the static entries;
- `CountExternal` for the size loop;
- `LastNamed` for the section scan.

The properties are then proved as lemmas about those functions.

## Model

| member | source | states |
|---|---|---|
| Bytes.EncodeLE | COFFInjector/COFFInjector.cpp:101-102 | the bytes `memcpy` copies from an integer: exactly `n` of them |
| Bytes.DecodeLE | COFFInjector/COFFInjector.cpp:101-102 | the value read back from `n` little-endian bytes is below 256^n |
| Bytes.DecodeEncode | COFFInjector/COFFInjector.cpp:101-102 | decoding the `n` bytes written for a value below 256^n gives the value back |
| Bytes.EncodeDecode | COFFInjector/COFFInjector.cpp:141 | encoding the value of any byte string gives the same byte string back |
| Bytes.Displacement | COFFInjector/COFFInjector.cpp:101 | the REL32 value is below 2^32, and field end + value ≡ target (mod 2^32) |
| Coff.LastNamed | COFFInjector/COFFInjector.cpp:20-34 | the chosen section's name contains the pattern and no later section's name does; None only when no section's name contains it |
| Coff.SectionRoles | COFFInjector/COFFInjector.cpp:17-34 | each chosen role is a section index of the file; the directive role may be absent |
| Coff.FindSections | COFFInjector/COFFInjector.cpp:17-34 | the section loop returns exactly `SectionRoles` |
| Coff.SectionRolesSpec | COFFInjector/COFFInjector.cpp:20-34 | each role is the last section whose name contains `.text`, `.drectve` or `.rdata`; the directive role is absent exactly when no name contains `.drectve`; the roles are missing exactly when `.text` or `.rdata` occurs in no name |
| Directives.Find | COFFInjector/COFFInjector.cpp:125 | the result is an occurrence at or after `from`, with none between `from` and it; None means no occurrence from `from` on |
| Directives.Contains | COFFInjector/COFFInjector.cpp:152 | `find != npos` holds exactly when the pattern occurs somewhere |
| Directives.LookupName | COFFInjector/COFFInjector.cpp:118-122 | a name with the `__imp_` prefix loses exactly those 6 characters; any other name is unchanged |
| Directives.DirectiveText | COFFInjector/COFFInjector.cpp:124 | the directive string is the section's bytes up to, and not including, the first NUL |
| Directives.NameEnd | COFFInjector/COFFInjector.cpp:129-130 | a library name runs to the next quote, or to the end of the text when no quote follows, and holds no quote |
| Directives.DllName | COFFInjector/COFFInjector.cpp:131-132 | the name keeps all but its last 3 characters, which become `dll` |
| Directives.MarkerPositions | COFFInjector/COFFInjector.cpp:125-150 | exactly the positions at or after the start that hold a `/DEFAULTLIB:"` marker: every listed one does, every one that does is listed, and the list is strictly increasing |
| Directives.LibraryNamesFrom | COFFInjector/COFFInjector.cpp:125-150 | the `while` loop over `pos1`: a name per marker found, then the search again from `pos2 + 1`; characterised by `Directives.LibraryNamesFromMarkers` |
| Directives.LibraryNames | COFFInjector/COFFInjector.cpp:125-150 | the scan started at the first marker; characterised by `Directives.LibraryNamesFromMarkers` |
| Directives.LibraryNamesFromMarkers | COFFInjector/COFFInjector.cpp:124-150 | without two markers in a row, the scan yields one library name per marker occurrence, in text order, each being the text from the marker's end to the next quote |
| Memory.WriteAt | COFFInjector/COFFInjector.cpp:92 | `memcpy` at an offset: the copied range holds the bytes, every other byte is unchanged, the length is kept |
| Memory.PatchRel32 | COFFInjector/COFFInjector.cpp:101-102 | after the patch the 4-byte field decodes to the REL32 displacement to the target |
| Memory.PatchRel32Frame | COFFInjector/COFFInjector.cpp:102 | a patch changes no byte outside its 4-byte field |
| Memory.WriteSlot | COFFInjector/COFFInjector.cpp:141 | after the write the 8-byte slot decodes to the address |
| Memory.WriteSlotFrame | COFFInjector/COFFInjector.cpp:141 | a slot write changes no byte outside its 8 bytes |
| Memory.CopyBytes | COFFInjector/COFFInjector.cpp:53 | the array afterwards is `WriteAt` of the array before |
| Memory.PatchSite | COFFInjector/COFFInjector.cpp:101-102 | the array afterwards is `PatchRel32` of the array before |
| Memory.StoreSlot | COFFInjector/COFFInjector.cpp:157 | the array afterwards is `WriteSlot` of the array before |
| Layout.CountExternal | COFFInjector/COFFInjector.cpp:41-48 | the count is at most the number of relocations, and zero exactly when no relocation's symbol is external |
| Layout.CountExternalAdds | COFFInjector/COFFInjector.cpp:41-48 | the count of one run of relocations followed by another is the sum of their counts |
| Layout.CountExternalOne | COFFInjector/COFFInjector.cpp:44-47 | a single relocation adds one exactly when its symbol is external, which with `Layout.CountExternalAdds` makes the count the number of external relocations |
| Layout.RequiredSize | COFFInjector/COFFInjector.cpp:40-48 | text size + rdata size + 8 per external relocation, before the `uint32_t` wrap; `Layout.PlanImageSize` is proved equal to it modulo 2^32 |
| Layout.PlanImageSize | COFFInjector/COFFInjector.cpp:40-48 | `totalSize` is (text size + rdata size + 8 × external relocations) mod 2^32, and equals that sum when the sum is below 2^32 |
| Statics.StaticEntries | COFFInjector/COFFInjector.cpp:65-73 | at most one entry per relocation, each naming a static symbol of the table |
| Statics.StaticEntriesCover | COFFInjector/COFFInjector.cpp:65-73 | every static relocation's symbol is among the entries |
| Statics.CountStatic | COFFInjector/COFFInjector.cpp:66-72 | the number of relocations whose symbol is static; `Statics.StaticEntriesOrder` ties it to the entries |
| Statics.StaticEntriesOrder | COFFInjector/COFFInjector.cpp:66-72 | one entry per static relocation: as many entries as static relocations, and static relocation `k` gives the entry at position (static relocations before `k`), so the order is kept and duplicates stay |
| Statics.CollectStaticSymbols | COFFInjector/COFFInjector.cpp:65-73 | the `push_back` loop yields exactly `StaticEntries`, in relocation order with duplicates |
| Statics.EntrySize | COFFInjector/COFFInjector.cpp:83-91 | `dataSize`: the last entry takes the rest of its section from its value; any other entry takes the next table entry's value minus its own; `Statics.EntryBytes` gives the bytes of that size |
| Statics.EntryBytes | COFFInjector/COFFInjector.cpp:81-92 | the bytes copied for an entry are exactly its size: the rest of the section for the last entry, else the next table entry's value minus its own |
| Statics.Refers | COFFInjector/COFFInjector.cpp:99 | the patch condition: the relocation's symbol is static and has the entry's symbol index; `Statics.PatchReferencesEffect` states what it selects |
| Statics.PatchReferences | COFFInjector/COFFInjector.cpp:96-105 | the inner patch loop keeps the image length |
| Statics.PatchStaticSites | COFFInjector/COFFInjector.cpp:96-105 | the array afterwards is `PatchReferences` of the array before, over all relocations |
| Statics.PatchReferencesEffect | COFFInjector/COFFInjector.cpp:96-105 | every static relocation naming the index reaches the target; every other relocation field is unchanged; no byte outside the fields changes |
| Statics.PatchReferencesField | COFFInjector/COFFInjector.cpp:96-105 | per relocation, after the first `k` are visited: a visited static one naming the index reaches the target, any other field is unchanged |
| Statics.PatchReferencesFrame | COFFInjector/COFFInjector.cpp:96-105 | no byte outside the relocation fields changes |
| Statics.PlaceStaticsUpTo | COFFInjector/COFFInjector.cpp:77-107 | after `k` entries the image length is kept and the cursor has advanced by exactly the sum of their sizes |
| Statics.StaticStep | COFFInjector/COFFInjector.cpp:79-106 | one placement iteration: copy, re-patch, advance; its effect is stated by `Statics.StaticStepEffect` and `Statics.StaticStepFrame` |
| Statics.PlaceEntry | COFFInjector/COFFInjector.cpp:79-106 | one iteration of the placement loop is one `StaticStep` |
| Statics.PlaceStatics | COFFInjector/COFFInjector.cpp:77-107 | the placement loop ends in `PlaceStaticsUpTo` of all entries |
| Statics.StaticStepEffect | COFFInjector/COFFInjector.cpp:79-106 | one step puts the entry's bytes at the cursor, advances the cursor by exactly its size, makes every static relocation with the entry's index reach the cursor, and keeps every other field and every byte outside the fields and the copy |
| Statics.StaticStepField | COFFInjector/COFFInjector.cpp:96-104 | one step, seen from one relocation: its field reaches the cursor if it names the entry's index, and is unchanged otherwise |
| Statics.FindLastEntry | COFFInjector/COFFInjector.cpp:77-107 | the result is the last of the first `k` entries with that symbol index; None when there is none |
| Statics.StaticStepFrame | COFFInjector/COFFInjector.cpp:92-105 | one step changes no byte outside the copy and the relocation fields |
| Statics.PlaceStaticsFrame | COFFInjector/COFFInjector.cpp:77-107 | placement changes no byte outside the placed data and the relocation fields |
| Statics.PlaceStaticsEntries | COFFInjector/COFFInjector.cpp:92 | after `k` entries, each is at start cursor + the sizes of the entries before it |
| Statics.EntryStays | COFFInjector/COFFInjector.cpp:92 | a placed entry stays in place while later entries are placed |
| Statics.EntryLands | COFFInjector/COFFInjector.cpp:92 | the entry placed last lies at the cursor its step started from |
| Statics.EntryKept | COFFInjector/COFFInjector.cpp:106 | placing one more entry leaves an earlier entry's bytes in place |
| Statics.PlaceStaticsField | COFFInjector/COFFInjector.cpp:77-107 | after `k` entries, a static relocation whose index some placed entry has reaches the LAST such entry, so a later duplicate overwrites; any other field is unchanged |
| Statics.PlaceStaticsFields | COFFInjector/COFFInjector.cpp:77-107 | the same, for every relocation at once after all entries |
| Statics.StaticFieldPlaced | COFFInjector/COFFInjector.cpp:96-104 | after placement a static relocation's field holds (start + offset of the last entry with its index − va − 4) mod 2^32 |
| Statics.OtherFieldPlaced | COFFInjector/COFFInjector.cpp:99 | after placement the field of a relocation that is not static, or whose index no entry has, is unchanged |
| Statics.EntryPlacedAt | COFFInjector/COFFInjector.cpp:79-106 | after placement entry `i` lies, byte for byte, at start + the sizes of the entries before it, inside the placed data |
| Externals.Resolve | COFFInjector/COFFInjector.cpp:133-151 | the address of the first library in declaration order whose renamed module exports the name; characterised in both directions by `Externals.ResolveFirstHit` and `Externals.ResolveNoHit` |
| Externals.FirstExport | COFFInjector/COFFInjector.cpp:133-151 | the same search library by library, with the `break` on the first hit |
| Externals.ResolveFirstHit | COFFInjector/COFFInjector.cpp:133-151 | the search yields `a` exactly when some library is the first whose renamed module exports the name, at `a` |
| Externals.ResolveNoHit | COFFInjector/COFFInjector.cpp:133-151 | the search yields nothing exactly when no declared library exports the name |
| Externals.BoundAddress | COFFInjector/COFFInjector.cpp:133-160 | the address the field ends up reaching: the callback when the name contains `COFF_API_Print`, else the library hit; used by `Externals.BindSiteEffect` |
| Externals.SiteSlots | COFFInjector/COFFInjector.cpp:141-160 | the slots one site takes: one for a library hit plus one for the callback name; `Externals.BindSiteEffect` and `Externals.SlotsWithinReservation` bound it |
| Externals.BindSlot | COFFInjector/COFFInjector.cpp:141-146 | one binding: slot at the cursor, field patched to it, cursor + 8; stated by `Externals.BindSlotEffect` |
| Externals.LibraryBinding | COFFInjector/COFFInjector.cpp:124-151 | the library search's effect: `BindSlot` of the first hit, or nothing; `Externals.SearchLibraries` is proved equal to it |
| Externals.BindSite | COFFInjector/COFFInjector.cpp:118-161 | one external relocation: the library search, then the callback branch; stated by `Externals.BindSiteEffect` and the four case lemmas |
| Externals.BindSlotEffect | COFFInjector/COFFInjector.cpp:141-146 | one binding stores the address in the slot at the cursor, makes the field reach that slot, advances the cursor by 8 and changes nothing else |
| Externals.BindSiteEffect | COFFInjector/COFFInjector.cpp:133-161 | one slot per binding; some address is bound exactly when a slot is written; then the field reaches the last slot, which holds the bound address (the callback when the name contains `COFF_API_Print`); with no binding nothing changes |
| Externals.BindSiteBoth | COFFInjector/COFFInjector.cpp:152-161 | with a library hit and the callback name: two slots, and the field reaches the second, which holds the callback |
| Externals.BindSiteLibrary | COFFInjector/COFFInjector.cpp:137-147 | with a library hit only: one slot, holding the library's address, which the field reaches |
| Externals.BindSiteHost | COFFInjector/COFFInjector.cpp:152-161 | with the callback name only: one slot, holding the callback, which the field reaches |
| Externals.BindSiteNeither | COFFInjector/COFFInjector.cpp:126-152 | with neither: no slot, and the state is unchanged |
| Externals.BindSiteTwice | COFFInjector/COFFInjector.cpp:152-161 | with both bindings, the first slot keeps the library's address and the field reaches the second slot |
| Externals.BindSiteFrame | COFFInjector/COFFInjector.cpp:133-161 | binding a site changes no byte outside its new slots and its field |
| Externals.BindStep | COFFInjector/COFFInjector.cpp:111-163 | after each relocation the cursor is start + 8 × the slots taken so far |
| Externals.BindUpTo | COFFInjector/COFFInjector.cpp:111-163 | after `k` relocations the length is kept and the cursor is start + 8 × their slots |
| Externals.BindStepExternal | COFFInjector/COFFInjector.cpp:116 | an external relocation's visit is the binding of its site |
| Externals.BindStepOther | COFFInjector/COFFInjector.cpp:116 | any other relocation's visit changes nothing |
| Externals.ScanStep | COFFInjector/COFFInjector.cpp:126-150 | one round of the `while` loop: a hit decides the search's result, and a miss leaves it to the scan from the next marker |
| Externals.StoreBinding | COFFInjector/COFFInjector.cpp:141-146 | the array and cursor afterwards are `BindSlot` of those before |
| Externals.SearchLibraries | COFFInjector/COFFInjector.cpp:124-151 | the `while` loop over the directive text ends in `LibraryBinding`: one slot for the first library hit, or nothing |
| Externals.BindExternal | COFFInjector/COFFInjector.cpp:118-161 | the handling of one external relocation ends in `BindSite` of the stripped name |
| Externals.BindExternals | COFFInjector/COFFInjector.cpp:111-163 | the loop over the relocations ends in `BindUpTo` of all of them |
| Externals.BindSitesBound | COFFInjector/COFFInjector.cpp:111-163 | after `k` relocations, a visited relocation that binds reaches its last slot, which holds its bound address; any other field is unchanged |
| Externals.ExternalsBound | COFFInjector/COFFInjector.cpp:111-163 | the same for every relocation after the whole loop |
| Externals.BindExternalsFrame | COFFInjector/COFFInjector.cpp:111-163 | the loop changes no byte outside the relocation fields and the slot area |
| Externals.BindExternalsKeepRegion | COFFInjector/COFFInjector.cpp:111-163 | bytes below the starting cursor and clear of all fields (the code and static data) are kept |
| Externals.BindExternalsKeepField | COFFInjector/COFFInjector.cpp:116 | the field of a relocation that binds nothing is kept |
| Externals.SlotsWithinReservation | COFFInjector/COFFInjector.cpp:40-48 | binding takes at most 2 slots per external relocation, and at most the 1 reserved per external relocation when none is bound twice |
| Loader.Zeros | COFFInjector/COFFInjector.cpp:49 | the fresh region has the planned length and reads as zero |
| Loader.TextCopied | COFFInjector/COFFInjector.cpp:49-54 | the first bytes of the fresh image, as many as the code has, are the code, every later byte is still zero, and the cursor is just past the code |
| Loader.StaticsPlaced | COFFInjector/COFFInjector.cpp:77-107 | after placement the cursor is text size + the sum of the entry sizes |
| Loader.LinkDefined | COFFInjector/COFFInjector.cpp:40-163 | what every offset the link reads or writes needs to be in range (listed under Left out) |
| Loader.DirectiveNeeded | COFFInjector/COFFInjector.cpp:116-124 | the directive section is missing while some code relocation is external, so the source would read an unset pointer |
| Loader.Linked | COFFInjector/COFFInjector.cpp:111-163 | the linked image has the planned length |
| Loader.LoadSpec | COFFInjector/COFFInjector.cpp:17-163 | `SectionNotFound` when `.text` or `.rdata` is missing or `Loader.DirectiveNeeded` holds, else the image after code copy, static placement and external binding; characterised by `Loader.LoadOutcome` |
| Loader.LoadOutcome | COFFInjector/COFFInjector.cpp:17-124 | loading fails exactly when `.text` or `.rdata` is missing, or `.drectve` is missing and some code relocation is external; a loaded image has the planned size |
| Loader.LoadImage | COFFInjector/COFFInjector.cpp:17-163 | the imperative load returns exactly `LoadSpec` |
| Loader.TextKept | COFFInjector/COFFInjector.cpp:53 | every code byte outside the relocation fields is, in the linked image, the byte the object file holds |
| Loader.ExternalFieldLinked | COFFInjector/COFFInjector.cpp:141-160 | in the linked image, a relocation that binds reaches its last slot, which holds the bound address |

## Left out

- Reading the object file (`COFF.load`, `get_sections`, `get_symbols`, `get_symbol`) is not modelled. Sections, relocations and symbols are inputs, and each relocation already names its symbol's position in the table.
- `VirtualAlloc`, and the page protection it grants, is not modelled. The region is a fresh zero-filled array of `totalSize` bytes, as committed pages are.
- `LoadLibraryA` and `GetProcAddress` are not modelled. Together they are the `lookup` parameter. A library that fails to load and one that lacks the name both give None.
- `&COFF_API_Print` is the parameter `hostPrint`. The body of `COFF_API_Print` is console output and is not modelled.
- The `printf` diagnostics and both hex dumps are not modelled. They are output only.
- Calling the image as code (line 174) is not modelled, and neither is `main`.
- A missing `.text` or `.rdata` section leaves a pointer unset that lines 36 and 40 read, which is undefined behaviour. The model answers `Failure(SectionNotFound)` and writes nothing.
- A missing `.drectve` section matters only to an external relocation, since line 124 is its only reader. With no external relocation, the model links the object as the source does. With one, the model answers `Failure(SectionNotFound)` before writing anything, where the source would read an unset pointer.
- The source builds the directive string with `append(const char*)`, so it stops at the first NUL. The model stops there as well. A section without a NUL would make the source read past its data; the model uses the whole section.
- The source checks no bounds. The model makes these preconditions (`Loader.LinkDefined`, `Statics.StaticsFit`, `Externals.BindFits`):
  - every relocation field lies inside the code;
  - every static entry's symbol has a section, and every entry but the last has a next table entry;
  - every entry's size is not negative and stays inside its section;
  - every library name tried, up to the first hit, has at least 3 characters;
  - the code, static data and slots fit in `totalSize`.
- The source never checks that relocation fields are disjoint. Every lemma whose `requires` mention `Coff.FieldsDisjoint` assumes it. That covers all the per-field statements of the `Statics` and `Externals` modules and `Loader.ExternalFieldLinked`, among them `Statics.PatchReferencesEffect`, `Statics.PlaceStaticsField`, `Statics.StaticFieldPlaced` and `Externals.BindSitesBound`. With overlapping fields, a later patch overwrites part of an earlier one, and those lemmas say nothing about that. The frame lemmas (`Loader.TextKept`, `Statics.PlaceStaticsFrame`, `Statics.StaticStepFrame`, `Externals.BindExternalsFrame`) do not assume it. Neither do the lemmas that place the static entries (`Statics.PlaceStaticsEntries`, `Statics.EntryStays`, `Statics.EntryLands`, `Statics.EntryKept`, `Statics.EntryPlacedAt`), because every field lies below the cursor the copies start at.
- Writing past the region is not modelled. The reservation can be exceeded:
  - duplicate static entries each get a copy, although `totalSize` counts the read-only data only once;
  - a name bound both by a library and to the host callback takes two slots, although one is reserved.

  `Externals.SlotsWithinReservation` bounds the slot count. A link that would overflow is outside `LinkDefined`.
- `Statics.EntryBytes` covers only a non-negative entry size. A negative `dataSize` would wrap as a `uint32_t`, and the model excludes it by precondition.
- The directive string is rebuilt for every external relocation in the source. The model computes it once; the section does not change, so every copy is the same.
- `Loader.LoadImage`: its contract ties the image to the phase functions. It does not restate each per-relocation property for the final image. Those are proved per phase (`Statics.StaticFieldPlaced`, `Statics.EntryPlacedAt`, `Externals.BindExternalsKeepField`, `Externals.BindSitesBound`). Only `Loader.TextKept` and `Loader.ExternalFieldLinked` are stated on the final image.
