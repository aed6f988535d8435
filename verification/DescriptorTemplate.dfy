/** Descriptor update templates: `create` counts the descriptors of each kind, and
    `fillDescriptorWrites` expands the entries into one write each, with the descriptors read
    from the caller's memory into three scratch arrays of those counts. */
module DescriptorTemplate {
  import opened Bits
  import opened Options

  /** Which scratch array the descriptors of a type go to. */
  datatype Kind = Image | Buffer | TexelView | Other

  /** By VkDescriptorType, as the IS_DESCRIPTOR macros sort them. */
  function KindOf(descriptorType: nat): Kind {
    if descriptorType <= 3 || descriptorType == 10 then Image
    else if 6 <= descriptorType <= 9 then Buffer
    else if descriptorType == 4 || descriptorType == 5 then TexelView
    else Other
  }

  datatype Entry = Entry(dstBinding: nat, dstArrayElement: nat, descriptorCount: nat, descriptorType: nat, offset: nat,
      stride: nat)

  datatype Info = Info(entries: seq<Entry>, imageInfoCount: nat, bufferInfoCount: nat, texelBufferViewCount: nat)

  /** VkWriteDescriptorSet; a pointer is an index into its scratch array. */
  datatype Write = Write(dstSet: nat, dstBinding: nat, dstArrayElement: nat, descriptorCount: nat, descriptorType: nat,
                         pImageInfo: Option<nat>, pBufferInfo: Option<nat>, pTexelBufferView: Option<nat>)

  function CountIn(e: Entry, kind: Kind): nat {
    if KindOf(e.descriptorType) == kind then e.descriptorCount else 0
  }

  /** How many descriptors of a kind the first `i` entries have. */
  function Total(entries: seq<Entry>, kind: Kind, i: nat): nat
    requires i <= |entries|
  {
    if i == 0 then 0 else Total(entries, kind, i - 1) + CountIn(entries[i - 1], kind)
  }

  // ---- the slices of the entries ----

  lemma {:induction false} TotalGrows(entries: seq<Entry>, kind: Kind, i: nat, k: nat)
    requires i <= k <= |entries|
    ensures Total(entries, kind, i) <= Total(entries, kind, k)
    decreases k
  {
    if i < k { TotalGrows(entries, kind, i, k - 1); }
  }

  /** The slices of two entries of a kind do not overlap, and every slice is in bounds. */
  lemma {:induction false} SlicesApart(entries: seq<Entry>, kind: Kind, i: nat, k: nat)
    requires i < k < |entries|
    ensures Total(entries, kind, i) + CountIn(entries[i], kind) <= Total(entries, kind, k)
    ensures Total(entries, kind, k) + CountIn(entries[k], kind) <= Total(entries, kind, |entries|)
  {
    TotalGrows(entries, kind, i + 1, k);
    TotalGrows(entries, kind, k + 1, |entries|);
  }

  /** Every element of a scratch array is in the slice of some entry: with SlicesApart, of
      exactly one. */
  lemma {:induction false} SliceOwner(entries: seq<Entry>, kind: Kind, n: nat, at: nat) returns (i: nat, j: nat)
    requires n <= |entries| && at < Total(entries, kind, n)
    ensures i < n && j < CountIn(entries[i], kind) && at == Total(entries, kind, i) + j
    decreases n
  {
    if at < Total(entries, kind, n - 1) {
      i, j := SliceOwner(entries, kind, n - 1, at);
    } else {
      i, j := n - 1, at - Total(entries, kind, n - 1);
    }
  }

  // ---- create ----

  /** The counts of the template are uint32_t sums. */
  predicate CountsOf(info: Info, entries: seq<Entry>, i: nat)
    requires i <= |entries|
  {
    && info.imageInfoCount == Wrap32(Total(entries, Image, i))
    && info.bufferInfoCount == Wrap32(Total(entries, Buffer, i))
    && info.texelBufferViewCount == Wrap32(Total(entries, TexelView, i))
  }

  method Create(entries: seq<Entry>) returns (info: Info)
    ensures info.entries == entries && CountsOf(info, entries, |entries|)
  {
    info := Info(entries, 0, 0, 0);
    for i := 0 to |entries|
      invariant info.entries == entries && CountsOf(info, entries, i)
    {
      var entry := entries[i];
      var kind := KindOf(entry.descriptorType);
      WrapOfWrapped(Total(entries, kind, i), entry.descriptorCount);
      if kind == Image {
        info := info.(imageInfoCount := Wrap32(info.imageInfoCount + entry.descriptorCount));
      } else if kind == Buffer {
        info := info.(bufferInfoCount := Wrap32(info.bufferInfoCount + entry.descriptorCount));
      } else if kind == TexelView {
        info := info.(texelBufferViewCount := Wrap32(info.texelBufferViewCount + entry.descriptorCount));
      }
    }
  }

  /** A count that a uint32_t can hold. */
  predicate Fits(entries: seq<Entry>) {
    Total(entries, Image, |entries|) < WRAP && Total(entries, Buffer, |entries|) < WRAP
        && Total(entries, TexelView, |entries|) < WRAP
  }

  /** The size of the scratch array of a kind. */
  function Room(info: Info, kind: Kind): nat {
    match kind
    case Image => info.imageInfoCount
    case Buffer => info.bufferInfoCount
    case TexelView => info.texelBufferViewCount
    case Other => 0
  }

  ghost predicate SlicesInBounds(entries: seq<Entry>, info: Info, kind: Kind) {
    forall i: nat | i < |entries| && KindOf(entries[i].descriptorType) == kind ::
      Total(entries, kind, i) + entries[i].descriptorCount <= Room(info, kind)
  }

  lemma BoundsIff(entries: seq<Entry>, info: Info, kind: Kind)
    requires Room(info, kind) == Wrap32(Total(entries, kind, |entries|))
    ensures Total(entries, kind, |entries|) < WRAP <==> SlicesInBounds(entries, info, kind)
  {
    var n := |entries|;
    if Total(entries, kind, n) < WRAP {
      forall i: nat | i < n && KindOf(entries[i].descriptorType) == kind
        ensures Total(entries, kind, i) + entries[i].descriptorCount <= Room(info, kind)
      {
        TotalGrows(entries, kind, i + 1, n);
      }
    } else {
      var i, j := SliceOwner(entries, kind, n, Total(entries, kind, n) - 1);
      assert KindOf(entries[i].descriptorType) == kind;
      assert Total(entries, kind, i) + entries[i].descriptorCount > Room(info, kind);
    }
  }

  lemma CountsExact(entries: seq<Entry>, info: Info)
    requires CountsOf(info, entries, |entries|) && Fits(entries)
    ensures info.imageInfoCount == Total(entries, Image, |entries|)
    ensures info.bufferInfoCount == Total(entries, Buffer, |entries|)
    ensures info.texelBufferViewCount == Total(entries, TexelView, |entries|)
  {}

  /** Every entry's slice is inside its scratch array if and only if no sum wraps; when one
      does, some entry's slice ends past the array. */
  lemma RoomIff(entries: seq<Entry>, info: Info)
    requires CountsOf(info, entries, |entries|)
    ensures Fits(entries) <==>
              && SlicesInBounds(entries, info, Image)
              && SlicesInBounds(entries, info, Buffer)
              && SlicesInBounds(entries, info, TexelView)
  {
    BoundsIff(entries, info, Image);
    BoundsIff(entries, info, Buffer);
    BoundsIff(entries, info, TexelView);
  }

  // ---- fillDescriptorWrites ----

  /** Totals that the int offsets can reach. */
  predicate OffsetsFit(entries: seq<Entry>) {
    Total(entries, Image, |entries|) < 0x8000_0000 && Total(entries, Buffer, |entries|) < 0x8000_0000
    && Total(entries, TexelView, |entries|) < 0x8000_0000
  }

  /** Four arrays that the caller has allocated apart. */
  predicate Apart<I, B, V>(images: array<I>, buffers: array<B>, views: array<V>, writes: array<Write>) {
    var a, b, c, d := images as object, buffers as object, views as object, writes as object;
    a != b && a != c && a != d && b != c && b != d && c != d
  }

  /** The write of entry `i`. */
  function WriteFor(entries: seq<Entry>, i: nat, dstSet: nat): Write
    requires i < |entries|
  {
    var e := entries[i];
    Write(dstSet, e.dstBinding, e.dstArrayElement, e.descriptorCount, e.descriptorType,
          Pointer(entries, i, Image), Pointer(entries, i, Buffer), Pointer(entries, i, TexelView))
  }

  /** The slice of entry `i` in the scratch array of a kind; null in the others. */
  function Pointer(entries: seq<Entry>, i: nat, kind: Kind): Option<nat>
    requires i < |entries|
  {
    if KindOf(entries[i].descriptorType) == kind then Some(Total(entries, kind, i)) else None
  }

  /** Descriptor `j` of an entry in the caller's memory. */
  function Address(e: Entry, data: nat, j: nat): nat { data + e.offset + Times(j, e.stride) }

  /** The slices of the first `n` entries of a kind hold what the caller's memory has. */
  ghost predicate Filled<T>(entries: seq<Entry>, kind: Kind, n: nat, infos: seq<T>, data: nat, read: nat -> T)
    requires n <= |entries|
  {
    Total(entries, kind, n) <= |infos|
    && forall i: nat, j: nat | i < n && j < CountIn(entries[i], kind) ::
         SliceAt(entries, kind, i, j) < |infos|
             && infos[SliceAt(entries, kind, i, j)] == read(Address(entries[i], data, j))
  }

  function SliceAt(entries: seq<Entry>, kind: Kind, i: nat, j: nat): nat
    requires i < |entries|
  {
    Total(entries, kind, i) + j
  }

  /** The copy loop of one entry, and the offset after it. */
  method Copy<T>(entries: seq<Entry>, i: nat, kind: Kind, infos: array<T>, from: nat, ptr0: nat, read: nat -> T,
      ghost data: nat)
    returns (offset: nat)
    requires i < |entries| && KindOf(entries[i].descriptorType) == kind && ptr0 == data + entries[i].offset
    requires from == Total(entries, kind, i) && Total(entries, kind, i + 1) <= infos.Length
    requires Filled(entries, kind, i, infos[..], data, read)
    modifies infos
    ensures offset == Total(entries, kind, i + 1) && Filled(entries, kind, i + 1, infos[..], data, read)
  {
    var entry, ptr := entries[i], ptr0;
    ghost var before := infos[..];
    for j := 0 to entry.descriptorCount
      invariant ptr == Address(entry, data, j)
      invariant forall k | 0 <= k < from :: infos[k] == before[k]
      invariant forall k: nat | k < j :: infos[from + k] == read(Address(entry, data, k))
    {
      infos[from + j] := read(ptr);
      ptr := ptr + entry.stride;
    }
    Extended(entries, kind, i, before, infos[..], data, read);
    offset := from + entry.descriptorCount;
  }

  lemma Extended<T>(entries: seq<Entry>, kind: Kind, i: nat, before: seq<T>, after: seq<T>, data: nat, read: nat -> T)
    requires i < |entries| && Filled(entries, kind, i, before, data, read) && |after| == |before|
    requires Total(entries, kind, i + 1) <= |after|
    requires forall k | 0 <= k < Total(entries, kind, i) :: after[k] == before[k]
    requires forall k: nat | k < CountIn(entries[i], kind) ::
               after[Total(entries, kind, i) + k] == read(Address(entries[i], data, k))
    ensures Filled(entries, kind, i + 1, after, data, read)
  {
    forall e: nat, j: nat | e < i + 1 && j < CountIn(entries[e], kind)
      ensures SliceAt(entries, kind, e, j) < |after|
          && after[SliceAt(entries, kind, e, j)] == read(Address(entries[e], data, j))
    {
      if e < i { TotalGrows(entries, kind, e + 1, i); }
    }
  }

  lemma Skipped<T>(entries: seq<Entry>, kind: Kind, i: nat, infos: seq<T>, data: nat, read: nat -> T)
    requires i < |entries| && Filled(entries, kind, i, infos, data, read) && KindOf(entries[i].descriptorType) != kind
    ensures Filled(entries, kind, i + 1, infos, data, read) && Total(entries, kind, i + 1) == Total(entries, kind, i)
  {}

  /** From a pointer on, a scratch array holds the entry's descriptors: those at the entry's
      offset in the caller's memory and then every `stride` bytes. */
  ghost predicate Holds<T>(e: Entry, p: Option<nat>, infos: seq<T>, data: nat, read: nat -> T) {
    p.Some? && forall j: nat | j < e.descriptorCount :: HoldsAt(e, p.value, j, infos, data, read)
  }

  ghost predicate HoldsAt<T>(e: Entry, p: nat, j: nat, infos: seq<T>, data: nat, read: nat -> T) {
    p + j < |infos| && infos[p + j] == read(data + e.offset + j * e.stride)
  }

  /** A write of an entry, by the number of its VkDescriptorType: samplers, images and input
      attachments are 0 to 3 and 10, texel buffers 4 and 5, other buffers 6 to 9. */
  ghost predicate Describes<I, B, V>(e: Entry, w: Write, dstSet: nat, images: seq<I>, buffers: seq<B>, views: seq<V>,
      data: nat, readImage: nat -> I, readBuffer: nat -> B, readView: nat -> V)
  {
    && w.dstSet == dstSet && w.dstBinding == e.dstBinding && w.dstArrayElement == e.dstArrayElement
    && w.descriptorCount == e.descriptorCount && w.descriptorType == e.descriptorType
    && (if e.descriptorType in {0, 1, 2, 3, 10} then Holds(e, w.pImageInfo, images, data, readImage)
        else w.pImageInfo.None?)
    && (if e.descriptorType in {6, 7, 8, 9} then Holds(e, w.pBufferInfo, buffers, data, readBuffer)
        else w.pBufferInfo.None?)
    && (if e.descriptorType in {4, 5} then Holds(e, w.pTexelBufferView, views, data, readView)
        else w.pTexelBufferView.None?)
  }

  lemma SliceHolds<T>(entries: seq<Entry>, kind: Kind, i: nat, infos: seq<T>, data: nat, read: nat -> T)
    requires i < |entries| && KindOf(entries[i].descriptorType) == kind
    requires Filled(entries, kind, |entries|, infos, data, read)
    ensures Holds(entries[i], Some(Total(entries, kind, i)), infos, data, read)
  {
    var e := entries[i];
    forall j: nat | j < e.descriptorCount
      ensures HoldsAt(e, Total(entries, kind, i), j, infos, data, read)
    {
      assert SliceAt(entries, kind, i, j) == Total(entries, kind, i) + j;
      TimesIsProduct(j, e.stride);
    }
  }

  lemma WriteDescribes<I, B, V>(entries: seq<Entry>, i: nat, dstSet: nat, images: seq<I>, buffers: seq<B>,
                                views: seq<V>, data: nat, readImage: nat -> I, readBuffer: nat -> B,
                                readView: nat -> V)
    requires i < |entries| && Filled(entries, Image, |entries|, images, data, readImage)
    requires Filled(entries, Buffer, |entries|, buffers, data, readBuffer)
    requires Filled(entries, TexelView, |entries|, views, data, readView)
    ensures Describes(entries[i], WriteFor(entries, i, dstSet), dstSet, images, buffers, views, data, readImage,
                      readBuffer, readView)
  {
    match KindOf(entries[i].descriptorType)
    case Image => SliceHolds(entries, Image, i, images, data, readImage);
    case Buffer => SliceHolds(entries, Buffer, i, buffers, data, readBuffer);
    case TexelView => SliceHolds(entries, TexelView, i, views, data, readView);
    case Other =>
  }

  lemma AllDescribed<I, B, V>(entries: seq<Entry>, writes: seq<Write>, dstSet: nat, images: seq<I>, buffers: seq<B>,
                              views: seq<V>, data: nat, readImage: nat -> I, readBuffer: nat -> B,
                              readView: nat -> V)
    requires |writes| == |entries| && forall i: nat | i < |entries| :: writes[i] == WriteFor(entries, i, dstSet)
    requires Filled(entries, Image, |entries|, images, data, readImage)
    requires Filled(entries, Buffer, |entries|, buffers, data, readBuffer)
    requires Filled(entries, TexelView, |entries|, views, data, readView)
    ensures forall i: nat | i < |entries| ::
              Describes(entries[i], writes[i], dstSet, images, buffers, views, data, readImage, readBuffer, readView)
  {
    forall i: nat | i < |entries|
      ensures Describes(entries[i], writes[i], dstSet, images, buffers, views, data, readImage, readBuffer, readView)
    {
      WriteDescribes(entries, i, dstSet, images, buffers, views, data, readImage, readBuffer, readView);
    }
  }

  /** The loop over the entries. */
  method Expand<I, B, V>(
      entries: seq<Entry>, dstSet: nat, imageInfos: array<I>, bufferInfos: array<B>, views: array<V>,
      writes: array<Write>, data: nat, readImage: nat -> I, readBuffer: nat -> B, readView: nat -> V)
    returns (imageOffset: nat, bufferOffset: nat, viewOffset: nat)
    requires imageInfos.Length == Total(entries, Image, |entries|)
    requires bufferInfos.Length == Total(entries, Buffer, |entries|)
    requires views.Length == Total(entries, TexelView, |entries|) && writes.Length == |entries|
    requires Apart(imageInfos, bufferInfos, views, writes)
    modifies imageInfos, bufferInfos, views, writes
    ensures forall i: nat | i < |entries| :: writes[i] == WriteFor(entries, i, dstSet)
    ensures Filled(entries, Image, |entries|, imageInfos[..], data, readImage)
    ensures Filled(entries, Buffer, |entries|, bufferInfos[..], data, readBuffer)
    ensures Filled(entries, TexelView, |entries|, views[..], data, readView)
    ensures imageOffset == imageInfos.Length && bufferOffset == bufferInfos.Length && viewOffset == views.Length
  {
    imageOffset, bufferOffset, viewOffset := 0, 0, 0;
    for i := 0 to |entries|
      invariant imageOffset == Total(entries, Image, i) && bufferOffset == Total(entries, Buffer, i)
          && viewOffset == Total(entries, TexelView, i)
      invariant forall k: nat | k < i :: writes[k] == WriteFor(entries, k, dstSet)
      invariant Filled(entries, Image, i, imageInfos[..], data, readImage)
      invariant Filled(entries, Buffer, i, bufferInfos[..], data, readBuffer)
      invariant Filled(entries, TexelView, i, views[..], data, readView)
    {
      var entry, kind := entries[i], KindOf(entries[i].descriptorType);
      TotalGrows(entries, kind, i + 1, |entries|);
      var pImageInfo: Option<nat>, pBufferInfo: Option<nat>, pTexelBufferView: Option<nat> := None, None, None;
      var ptr := data + entry.offset;
      if kind == Image {
        pImageInfo := Some(imageOffset);
        imageOffset := Copy(entries, i, Image, imageInfos, imageOffset, ptr, readImage, data);
      } else if kind == Buffer {
        pBufferInfo := Some(bufferOffset);
        bufferOffset := Copy(entries, i, Buffer, bufferInfos, bufferOffset, ptr, readBuffer, data);
      } else if kind == TexelView {
        pTexelBufferView := Some(viewOffset);
        viewOffset := Copy(entries, i, TexelView, views, viewOffset, ptr, readView, data);
      }
      if kind != Image { Skipped(entries, Image, i, imageInfos[..], data, readImage); }
      if kind != Buffer { Skipped(entries, Buffer, i, bufferInfos[..], data, readBuffer); }
      if kind != TexelView { Skipped(entries, TexelView, i, views[..], data, readView); }
      writes[i] := Write(dstSet, entry.dstBinding, entry.dstArrayElement, entry.descriptorCount, entry.descriptorType,
                         pImageInfo, pBufferInfo, pTexelBufferView);
    }
  }

  /** Every write describes its entry and points to its slice, every slice holds the entry's
      descriptors, and the offsets end at the counts. The scratch arrays are the caller's, of
      the counts that `create` has found. */
  method FillDescriptorWrites<I, B, V>(
      info: Info, dstSet: nat, imageInfos: array<I>, bufferInfos: array<B>, views: array<V>, writes: array<Write>,
      data: nat, readImage: nat -> I, readBuffer: nat -> B, readView: nat -> V)
    returns (imageOffset: nat, bufferOffset: nat, viewOffset: nat)
    requires CountsOf(info, info.entries, |info.entries|) && OffsetsFit(info.entries)
    requires imageInfos.Length == info.imageInfoCount && bufferInfos.Length == info.bufferInfoCount
    requires views.Length == info.texelBufferViewCount && writes.Length == |info.entries|
    requires Apart(imageInfos, bufferInfos, views, writes)
    modifies imageInfos, bufferInfos, views, writes
    ensures forall i: nat | i < |info.entries| :: writes[i] == WriteFor(info.entries, i, dstSet)
    ensures Filled(info.entries, Image, |info.entries|, imageInfos[..], data, readImage)
    ensures Filled(info.entries, Buffer, |info.entries|, bufferInfos[..], data, readBuffer)
    ensures Filled(info.entries, TexelView, |info.entries|, views[..], data, readView)
    ensures forall i: nat | i < |info.entries| ::
              Describes(info.entries[i], writes[i], dstSet, imageInfos[..], bufferInfos[..], views[..], data,
                        readImage, readBuffer, readView)
    ensures imageOffset == info.imageInfoCount && bufferOffset == info.bufferInfoCount
        && viewOffset == info.texelBufferViewCount
  {
    var entries := info.entries;
    CountsExact(entries, info);
    imageOffset, bufferOffset, viewOffset := Expand(entries, dstSet, imageInfos, bufferInfos, views, writes, data,
        readImage, readBuffer, readView);
    AllDescribed(entries, writes[..], dstSet, imageInfos[..], bufferInfos[..], views[..], data, readImage, readBuffer,
        readView);
  }
}
