/**
  The loaded image as a byte buffer and the three kinds of write the loader
  makes into it: a block copy (`memcpy` of section bytes), a REL32 patch of a
  4-byte field, and an 8-byte pointer slot.
 */
module Memory {
  import opened Bytes

  /** The loader's working state: the image bytes and the cursor, which is
      the offset of `dataPointer` from the start of the image. */
  datatype Image = Image(bytes: seq<Byte>, cursor: nat)

  /** The 4-byte little-endian field at offset `site`. */
  function Field(img: seq<Byte>, site: nat): nat
    requires site + 4 <= |img|
  {
    DecodeLE(img[site..site + 4])
  }

  /** The 8-byte little-endian slot at offset `off`. */
  function Slot(img: seq<Byte>, off: nat): nat
    requires off + 8 <= |img|
  {
    DecodeLE(img[off..off + 8])
  }

  /** `img` with `bytes` copied in at offset `off`. */
  function WriteAt(img: seq<Byte>, off: nat, bytes: seq<Byte>): (r: seq<Byte>)
    requires off + |bytes| <= |img|
    ensures |r| == |img|
    ensures r[off..off + |bytes|] == bytes
    ensures forall i :: 0 <= i < |img| && !(off <= i < off + |bytes|) ==> r[i] == img[i]
  {
    img[..off] + bytes + img[off + |bytes|..]
  }

  /** `img` with the REL32 field at `site` made to reach `target`. */
  function PatchRel32(img: seq<Byte>, site: nat, target: int): (r: seq<Byte>)
    requires site + 4 <= |img|
    ensures |r| == |img|
    ensures Field(r, site) == Displacement(target, site)
  {
    Widths();
    DecodeEncode(Displacement(target, site), 4);
    WriteAt(img, site, EncodeLE(Displacement(target, site), 4))
  }

  /** A REL32 patch changes only the 4 bytes of its field. */
  lemma PatchRel32Frame(img: seq<Byte>, site: nat, target: int)
    requires site + 4 <= |img|
    ensures forall i :: 0 <= i < |img| && !(site <= i < site + 4) ==> PatchRel32(img, site, target)[i] == img[i]
  {
  }

  /** `img` with the address `a` stored in the 8-byte slot at `off`. */
  function WriteSlot(img: seq<Byte>, off: nat, a: Address): (r: seq<Byte>)
    requires off + 8 <= |img|
    ensures |r| == |img|
    ensures Slot(r, off) == a
  {
    Widths();
    DecodeEncode(a, 8);
    WriteAt(img, off, EncodeLE(a, 8))
  }

  /** Storing a slot changes only its 8 bytes. */
  lemma WriteSlotFrame(img: seq<Byte>, off: nat, a: Address)
    requires off + 8 <= |img|
    ensures forall i :: 0 <= i < |img| && !(off <= i < off + 8) ==> WriteSlot(img, off, a)[i] == img[i]
  {
  }

  /** `memcpy(allData + off, bytes, |bytes|)`. */
  method CopyBytes(image: array<Byte>, off: nat, bytes: seq<Byte>)
    requires off + |bytes| <= image.Length
    modifies image
    ensures image[..] == WriteAt(old(image[..]), off, bytes)
  {
    forall i | 0 <= i < |bytes| {
      image[off + i] := bytes[i];
    }
  }

  /** Writes the low 4 bytes of `target - site - 4` at `site`. */
  method PatchSite(image: array<Byte>, site: nat, target: int)
    requires site + 4 <= image.Length
    modifies image
    ensures image[..] == PatchRel32(old(image[..]), site, target)
  {
    CopyBytes(image, site, EncodeLE(Displacement(target, site), 4));
  }

  /** Writes the 8 bytes of the address `a` at `off`. */
  method StoreSlot(image: array<Byte>, off: nat, a: Address)
    requires off + 8 <= image.Length
    modifies image
    ensures image[..] == WriteSlot(old(image[..]), off, a)
  {
    CopyBytes(image, off, EncodeLE(a, 8));
  }
}
