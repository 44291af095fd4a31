/** The rules of the ILWIS-3 raster connector
    (ilwisrastercoverageconnector.cpp) that do not depend on the grid or
    floating point: the store type named in the object definition file,
    the integer pixel values of a raw block, the block accounting of the
    read loop, the choice of raw-value converter, the '#' suffix of the
    data file and the store type chosen when writing. */
module Raster {
  import opened Seqs
  import opened Wrappers
  import opened Bytes
  import opened Text

  /** The IlwisTypes a store type can be (itUINT8 ... itDOUBLE). */
  datatype StoreKind = UInt8 | Int16 | Int32 | Float | Int64 | Real

  /** The number of bytes one pixel of a store type takes. */
  function Width(k: StoreKind): (w: nat)
    ensures w == 1 || w == 2 || w == 4 || w == 8
  {
    match k
    case UInt8 => 1
    case Int16 => 2
    case Int32 => 4
    case Float => 4
    case Int64 => 8
    case Real => 8
  }

  /** The store type setStoreType picks for a MapStore/Type string:
      "Int", "Long", "Float" and "Real" are recognised, anything else is
      a byte map. */
  function StoreKindOf(name: string): (k: StoreKind)
    ensures k == Int16 <==> name == "Int"
    ensures k == Int32 <==> name == "Long"
    ensures k == Float <==> name == "Float"
    ensures k == Real <==> name == "Real"
    ensures k != Int64
  {
    if name == "Int" then Int16
    else if name == "Long" then Int32
    else if name == "Float" then Float
    else if name == "Real" then Real
    else UInt8
  }

  /** The store type strings setStoreType gives a size to. */
  predicate SizedName(name: string) {
    name in {"Int", "Long", "Float", "Real"}
  }

  /** The raw value converter: neutral, or one of the three item
      converters setDataType can pick from BaseMap/DomainInfo. */
  datatype Converter = Neutral | ClassConverter | IdConverter | UniqueIdConverter

  /** The converter setDataType leaves: for a domain whose values are
      not numbers and a DomainInfo that is defined, the first of "class;",
      "id;" and "UniqueID;" found in it picks the converter; otherwise
      the converter stays as it was. */
  function ConverterChoice(valueIsNumber: bool, domainInfo: string, current: Converter): (c: Converter)
    ensures valueIsNumber || domainInfo == SUndef ==> c == current
    ensures !valueIsNumber && domainInfo != SUndef ==>
              (c == ClassConverter <==> Contains(domainInfo, "class;") || (current == ClassConverter && !FoundItemKind(domainInfo)))
  {
    if valueIsNumber || domainInfo == SUndef then current
    else if IndexOf(domainInfo, "class;") != -1 then ClassConverter
    else if IndexOf(domainInfo, "id;") != -1 then IdConverter
    else if IndexOf(domainInfo, "UniqueID;") != -1 then UniqueIdConverter
    else current
  }

  /** Whether DomainInfo names any of the three item kinds. */
  predicate FoundItemKind(domainInfo: string) {
    Contains(domainInfo, "class;") || Contains(domainInfo, "id;") || Contains(domainInfo, "UniqueID;")
  }

  /** The priority of the converter choice: "class;" wins over "id;",
      which wins over "UniqueID;"; a DomainInfo naming none of them
      keeps the converter. */
  lemma ConverterPriority(domainInfo: string, current: Converter)
    requires domainInfo != SUndef
    ensures Contains(domainInfo, "class;") ==> ConverterChoice(false, domainInfo, current) == ClassConverter
    ensures !Contains(domainInfo, "class;") && Contains(domainInfo, "id;") ==>
              ConverterChoice(false, domainInfo, current) == IdConverter
    ensures !Contains(domainInfo, "class;") && !Contains(domainInfo, "id;") && Contains(domainInfo, "UniqueID;") ==>
              ConverterChoice(false, domainInfo, current) == UniqueIdConverter
    ensures !FoundItemKind(domainInfo) ==> ConverterChoice(false, domainInfo, current) == current
  {
    IndexOfContains(domainInfo, "class;");
    IndexOfContains(domainInfo, "id;");
    IndexOfContains(domainInfo, "UniqueID;");
  }

  // ---- pixel values ----

  /** The value of a two's-complement field of w bytes. */
  function Signed(n: nat, w: nat): (v: int)
    requires n < Pow256(w)
    ensures -(Pow256(w) as int) <= 2 * v < Pow256(w)
    ensures v == n || v == n - Pow256(w)
  {
    if 2 * n >= Pow256(w) then n - Pow256(w) else n
  }

  /** The integer store types. */
  predicate IsIntegral(k: StoreKind) {
    k != Float && k != Real
  }

  /** The values a store type holds exactly. */
  predicate Fits(v: int, k: StoreKind)
    requires IsIntegral(k)
  {
    if k == UInt8 then 0 <= v < 256
    else -(Pow256(Width(k)) as int) <= 2 * v < Pow256(Width(k))
  }

  /** value(block, index) for the integer store types: the element at
      byte offset index * storeSize, read with the width of the store
      type, unsigned for itUINT8 and signed otherwise. The float store
      types are not modelled (None). */
  function PixelValue(block: seq<byte>, index: nat, kind: StoreKind, storeSize: nat): (v: Option<int>)
    requires index * storeSize + Width(kind) <= |block|
    ensures v.Some? <==> IsIntegral(kind)
    ensures v.Some? && kind == UInt8 ==> 0 <= v.value < 256
  {
    var at := index * storeSize;
    var n := FromLittleEndian(block[at..at + Width(kind)]);
    if !IsIntegral(kind) then None
    else if kind == UInt8 then Some(n)
    else Some(Signed(n, Width(kind)))
  }

  /** The bytes a store type holds for value v: its two's complement in
      Width(k) bytes, least significant first. */
  function EncodeValue(v: int, k: StoreKind): (b: seq<byte>)
    requires IsIntegral(k) && Fits(v, k)
    ensures |b| == Width(k)
  {
    LittleEndian(if v < 0 then v + Pow256(Width(k)) else v, Width(k))
  }

  /** A block of pixels as a file holds it. */
  function EncodeBlock(vs: seq<int>, k: StoreKind): (b: seq<byte>)
    requires IsIntegral(k)
    requires forall i :: 0 <= i < |vs| ==> Fits(vs[i], k)
    ensures |b| == |vs| * Width(k)
  {
    if vs == [] then [] else EncodeValue(vs[0], k) + EncodeBlock(vs[1..], k)
  }

  /** Pixel i of an encoded block sits at byte offset i * width. */
  lemma {:induction false} EncodedSlot(vs: seq<int>, k: StoreKind, i: nat)
    requires IsIntegral(k)
    requires forall j :: 0 <= j < |vs| ==> Fits(vs[j], k)
    requires i < |vs|
    ensures i * Width(k) + Width(k) <= |EncodeBlock(vs, k)|
    ensures EncodeBlock(vs, k)[i * Width(k)..i * Width(k) + Width(k)] == EncodeValue(vs[i], k)
  {
    EncodedSlotAt(vs, k, i, i * Width(k));
  }

  /** EncodedSlot with the offset named, so that the induction steps by
      subtracting one width instead of multiplying. */
  lemma {:induction false} EncodedSlotAt(vs: seq<int>, k: StoreKind, i: nat, off: nat)
    requires IsIntegral(k)
    requires forall j :: 0 <= j < |vs| ==> Fits(vs[j], k)
    requires i < |vs| && off == i * Width(k)
    ensures off + Width(k) <= |EncodeBlock(vs, k)|
    ensures EncodeBlock(vs, k)[off..off + Width(k)] == EncodeValue(vs[i], k)
  {
    var w := Width(k);
    var head := EncodeValue(vs[0], k);
    var rest := EncodeBlock(vs[1..], k);
    assert EncodeBlock(vs, k) == head + rest;
    if i > 0 {
      var tail := vs[1..];
      assert forall j :: 0 <= j < |tail| ==> Fits(tail[j], k) by {
        forall j | 0 <= j < |tail| ensures Fits(tail[j], k) {
          assert tail[j] == vs[j + 1];
        }
      }
      MulStep(i, w);
      EncodedSlotAt(tail, k, i - 1, off - w);
      assert tail[i - 1] == vs[i];
      ChunkAfterHead(EncodeBlock(vs, k), head, rest, off, w, EncodeValue(vs[i], k));
    } else {
      AppendParts(head, rest);
    }
  }

  lemma {:induction false} MulStep(i: nat, w: nat)
    requires i > 0
    ensures i * w == w + (i - 1) * w
  {
  }

  /** Decoding one field gives back the value encoded in it. */
  lemma SignedOfEncoded(v: int, k: StoreKind)
    requires IsIntegral(k) && Fits(v, k)
    ensures var n := FromLittleEndian(EncodeValue(v, k));
            n < Pow256(Width(k)) &&
            (if k == UInt8 then n == v else Signed(n, Width(k)) == v)
  {
    var w := Width(k);
    assert Pow256(1) == 256;
    var u := if v < 0 then v + Pow256(w) else v;
    FromLittleEndianOfLittleEndian(u, w);
  }

  /** Reading pixel i of a block written with matching store type and
      size gives back pixel i. */
  lemma PixelValueOfEncoded(vs: seq<int>, k: StoreKind, i: nat)
    requires IsIntegral(k)
    requires forall j :: 0 <= j < |vs| ==> Fits(vs[j], k)
    requires i < |vs|
    ensures i * Width(k) + Width(k) <= |EncodeBlock(vs, k)|
    ensures PixelValue(EncodeBlock(vs, k), i, k, Width(k)) == Some(vs[i])
  {
    EncodedSlot(vs, k, i);
    SignedOfEncoded(vs[i], k);
  }

  // ---- the read loop of conversion ----

  /** The read requests of conversion for `left` bytes in blocks of
      `blockBytes`: whole blocks while at least a block is left, then the
      remainder. */
  function Requests(left: int, blockBytes: nat): seq<nat>
    requires blockBytes > 0
    decreases left
  {
    if left <= 0 then []
    else [if left >= blockBytes then blockBytes else left] + Requests(left - blockBytes, blockBytes)
  }

  function Sum(xs: seq<nat>): nat {
    if xs == [] then 0 else xs[0] + Sum(xs[1..])
  }

  lemma {:induction false} SumSnoc(xs: seq<nat>, x: nat)
    ensures Sum(xs + [x]) == Sum(xs) + x
  {
    if xs != [] {
      assert (xs + [x])[1..] == xs[1..] + [x];
      SumSnoc(xs[1..], x);
    }
  }

  /** The requests cover the data exactly: ceil(total / blockBytes) of
      them, all a whole block but the last, which asks only for what is
      left. */
  lemma {:induction false} RequestsShape(total: nat, blockBytes: nat)
    requires blockBytes > 0
    ensures var r := Requests(total, blockBytes);
            Sum(r) == total &&
            |r| * blockBytes >= total && (|r| == 0 || (|r| - 1) * blockBytes < total) &&
            (forall i :: 0 <= i < |r| - 1 ==> r[i] == blockBytes) &&
            (|r| > 0 ==> r[|r| - 1] == total - (|r| - 1) * blockBytes)
    decreases total
  {
    var r := Requests(total, blockBytes);
    if total > 0 && total >= blockBytes {
      var rest := Requests(total - blockBytes, blockBytes);
      RequestsShape(total - blockBytes, blockBytes);
      assert r == [blockBytes] + rest;
      assert r[1..] == rest;
      assert |r| * blockBytes == |rest| * blockBytes + blockBytes;
      if |rest| > 0 {
        assert (|r| - 1) * blockBytes == (|rest| - 1) * blockBytes + blockBytes;
      }
    } else if total > 0 {
      assert r == [total] + Requests(total - blockBytes, blockBytes);
      assert Requests(total - blockBytes, blockBytes) == [];
    }
  }

  /** Whether the grid knows the item count of blocks first .. first+n-1
      (blockSize is not iUNDEF for them). */
  predicate BlocksKnown(blockItems: nat -> Option<nat>, first: nat, n: nat) {
    forall c :: first <= c < first + n ==> blockItems(c).Some?
  }

  function Min(a: nat, b: nat): nat {
    if a <= b then a else b
  }

  // ---- the connector ----

  /** The state the raster connector keeps between loadMetaData and
      loadGridData. */
  class RasterConnector {
    var storeKind: StoreKind
    var storeSize: nat
    var converter: Converter
    var converterStore: StoreKind
    var dataFiles: seq<string>

    /** A new connector: store size 1 (the store type is set by
        loadMetaData before any use). */
    constructor()
      ensures storeSize == 1 && converter == Neutral && dataFiles == []
    {
      storeKind := UInt8;
      storeSize := 1;
      converter := Neutral;
      converterStore := UInt8;
      dataFiles := [];
    }

    /** The store size agrees with the store type. */
    predicate Consistent()
      reads this
    {
      storeSize == Width(storeKind)
    }

    /** setStoreType: the table of store types; an unrecognised name
        makes a byte map and leaves the size as it was. The converter is
        told the store type. */
    method SetStoreType(name: string)
      modifies this
      ensures storeKind == StoreKindOf(name) && converterStore == storeKind
      ensures storeSize == if SizedName(name) then Width(storeKind) else old(storeSize)
      ensures converter == old(converter) && dataFiles == old(dataFiles)
      ensures SizedName(name) || old(storeSize) == 1 ==> Consistent()
    {
      storeKind := UInt8;
      if name == "Int" {
        storeSize := 2;
        storeKind := Int16;
      } else if name == "Long" {
        storeSize := 4;
        storeKind := Int32;
      } else if name == "Float" {
        storeSize := 4;
        storeKind := Float;
      } else if name == "Real" {
        storeSize := 8;
        storeKind := Real;
      }
      converterStore := storeKind;
    }

    /** setDataType: false when the data definition is not valid,
        otherwise the converter choice of ConverterChoice. */
    method SetDataType(definitionValid: bool, valueIsNumber: bool, domainInfo: string) returns (ok: bool)
      modifies this
      ensures ok == definitionValid
      ensures converter == if ok then ConverterChoice(valueIsNumber, domainInfo, old(converter)) else old(converter)
      ensures storeKind == old(storeKind) && storeSize == old(storeSize) && converterStore == old(converterStore)
      ensures dataFiles == old(dataFiles)
    {
      if !definitionValid {
        return false;
      }
      if !valueIsNumber && domainInfo != SUndef {
        if IndexOf(domainInfo, "class;") != -1 {
          converter := ClassConverter;
        } else if IndexOf(domainInfo, "id;") != -1 {
          converter := IdConverter;
        } else if IndexOf(domainInfo, "UniqueID;") != -1 {
          converter := UniqueIdConverter;
        }
      }
      ok := true;
    }

    /** The tail of loadMetaData: MapStore/Data, resolved to a full path,
        is kept unless undefined, and MapStore/Type sets the store type. */
    method LoadStoreKeys(dataPath: string, storeTypeName: string)
      modifies this
      ensures dataFiles == old(dataFiles) + (if dataPath != SUndef then [dataPath] else [])
      ensures storeKind == StoreKindOf(storeTypeName) && converterStore == storeKind
      ensures storeSize == if SizedName(storeTypeName) then Width(storeKind) else old(storeSize)
      ensures converter == old(converter)
    {
      if dataPath != SUndef {
        dataFiles := dataFiles + [dataPath];
      }
      SetStoreType(storeTypeName);
    }

    /** value(block, index) with the connector's store type and size. */
    function Value(block: seq<byte>, index: nat): (v: Option<int>)
      reads this
      requires index * storeSize + Width(storeKind) <= |block|
      ensures v.Some? <==> IsIntegral(storeKind)
    {
      PixelValue(block, index, storeKind, storeSize)
    }

    /** conversion: the raster's xsize * ysize pixels read from a file
        holding `available` bytes, in blocks of blockSize(0) pixels.
        requested holds the byte counts asked of the file; count, carried over from the
        previous data file, counts the blocks handed to the grid. When
        the grid does not know a block's size the loop stops and the
        result is 0. */
    method Conversion(available: nat, xsize: nat, ysize: nat, blockItems: nat -> Option<nat>, count0: nat)
        returns (totalRead: nat, count: nat, requested: seq<nat>)
      requires blockItems(0).Some? && blockItems(0).value * storeSize > 0
      ensures var requests := Requests(xsize * ysize * storeSize, blockItems(0).value * storeSize);
              (BlocksKnown(blockItems, count0, |requests|) ==>
                 requested == requests && count == count0 + |requests| &&
                 totalRead == Min(xsize * ysize * storeSize, available)) &&
              (!BlocksKnown(blockItems, count0, |requests|) ==>
                 totalRead == 0 && count0 <= count && blockItems(count).None? &&
                 BlocksKnown(blockItems, count0, count - count0) &&
                 count - count0 < |requests| && requested == requests[..count - count0 + 1])
    {
      var blockBytes: nat := blockItems(0).value * storeSize;
      var total: nat := xsize * ysize * storeSize;
      ghost var requests := Requests(total, blockBytes);
      var szLeft: int := total;
      var left: nat := available;
      totalRead, count, requested := 0, count0, [];
      while szLeft > 0
        invariant requested + Requests(szLeft, blockBytes) == requests
        invariant count == count0 + |requested|
        invariant BlocksKnown(blockItems, count0, |requested|)
        invariant totalRead == Min(Sum(requested), available) && left == available - totalRead
        invariant szLeft == total - Sum(requested) || szLeft <= 0
        decreases szLeft
      {
        var request: nat := if szLeft >= blockBytes then blockBytes else szLeft;
        var result := Min(request, left);
        left := left - result;
        ghost var before := requested;
        requested := requested + [request];
        SumSnoc(before, request);
        assert requests == before + ([request] + Requests(szLeft - blockBytes, blockBytes));
        SeqAssoc(before, [request], Requests(szLeft - blockBytes, blockBytes));
        if blockItems(count).None? {
          PrefixOfRequests(before, [request], Requests(szLeft - blockBytes, blockBytes), requests);
          UnknownBlock(blockItems, count0, |requests|, |before|);
          return 0, count, requested;
        }
        totalRead := totalRead + result;
        count := count + 1;
        szLeft := szLeft - blockBytes;
      }
      AppendEmpty(requested);
      RequestsShape(total, blockBytes);
    }
  }

  lemma PrefixOfRequests(a: seq<nat>, b: seq<nat>, c: seq<nat>, all: seq<nat>)
    requires all == (a + b) + c
    ensures |a + b| <= |all| && all[..|a + b|] == a + b
  {
  }

  /** A block whose size is unknown means not all blocks are known. */
  lemma UnknownBlock(blockItems: nat -> Option<nat>, first: nat, n: nat, k: nat)
    requires k < n && blockItems(first + k).None?
    ensures !BlocksKnown(blockItems, first, n)
  {
  }

  // ---- file names and the store type written ----

  /** loadGridData: a data file path not ending in '#' gets one. */
  function WithHashSuffix(path: string): (r: string)
    ensures EndsWith(r, "#")
    ensures Last(path) == Some('#') ==> r == path
    ensures Last(path) != Some('#') ==> r == path + "#"
  {
    if Last(path) != Some('#') then path + "#" else path
  }

  /** The suffix rule applied twice is applied once. */
  lemma WithHashSuffixIdempotent(path: string)
    ensures WithHashSuffix(WithHashSuffix(path)) == WithHashSuffix(path)
  {
  }

  /** The kind of a raster's domain, as storeBinaryData and storeMetaData test it. */
  datatype DomainKind =
    | NumericDomain
    | ItemDomain(thematic: bool, named: bool)
    | OtherDomain

  /** The MapStore/Type storeMetaData writes, or None when it sets
      none. For a numeric domain, delta and digits are the statistics'
      integer range and significant digits, and rawKind is the store type
      of the RawConverter built from the statistics. */
  function MapStoreTypeName(domain: DomainKind, delta: int, digits: int, rawKind: StoreKind): (name: Option<string>)
    ensures domain.NumericDomain? && 0 <= delta < 256 && digits == 0 ==> name == Some("Byte")
    ensures domain.ItemDomain? ==>
              name == (if domain.thematic then Some("Byte") else if domain.named then Some("Int") else None)
    ensures domain.OtherDomain? ==> name == None
    ensures name.Some? ==> name.value in {"Byte", "Int", "Long", "Real"}
  {
    match domain
    case NumericDomain =>
      if 0 <= delta < 256 && digits == 0 then Some("Byte")
      else if rawKind == UInt8 then Some("Byte")
      else if rawKind == Int16 then Some("Int")
      else if rawKind == Int32 then Some("Long")
      else if rawKind == Real then Some("Real")
      else None
    case ItemDomain(thematic, named) =>
      if thematic then Some("Byte") else if named then Some("Int") else None
    case OtherDomain => None
  }

  /** The store type written is read back as the converter's store type
      (the narrow range case writes bytes), and its size is that type's
      width except for bytes, whose size setStoreType leaves alone. */
  lemma MapStoreTypeRoundTrip(delta: int, digits: int, rawKind: StoreKind)
    requires MapStoreTypeName(NumericDomain, delta, digits, rawKind).Some?
    ensures var name := MapStoreTypeName(NumericDomain, delta, digits, rawKind).value;
            StoreKindOf(name) == (if 0 <= delta < 256 && digits == 0 then UInt8 else rawKind) &&
            (SizedName(name) <==> StoreKindOf(name) != UInt8)
  {
  }

  /** A thematic map is read back as bytes, a named-item map as 16-bit
      integers. */
  lemma ItemMapStoreTypeRoundTrip(thematic: bool, named: bool)
    requires thematic || named
    ensures StoreKindOf(MapStoreTypeName(ItemDomain(thematic, named), 0, 0, UInt8).value)
            == if thematic then UInt8 else Int16
  {
  }
}
