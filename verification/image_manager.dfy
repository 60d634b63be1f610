/** The image-slot registry of the render-side image manager: per data type, a table of
    images with user counts; flat device slot numbers that carry the type in their low
    three bits (or, on CUDA Fermi cards, a fixed split of a small range); image limits;
    and the packed sampling options. Loading pixels is not modelled: the metadata a
    file would give is an input. */
module ImageManager {
  import opened Common

  /** The texture data types, in the order of their numeric codes. */
  datatype ImageDataType = Float4 | Byte4 | Half4 | Float | Byte | Half | UShort4 | UShort

  function Code(t: ImageDataType): (c: nat)
    ensures c < 8
  {
    match t
    case Float4 => 0
    case Byte4 => 1
    case Half4 => 2
    case Float => 3
    case Byte => 4
    case Half => 5
    case UShort4 => 6
    case UShort => 7
  }

  /** The type with a given code; the three low bits of a flat slot always name one. */
  function TypeOfCode(c: nat): (t: ImageDataType)
    requires c < 8
    ensures Code(t) == c
  {
    if c == 0 then Float4 else if c == 1 then Byte4 else if c == 2 then Half4
    else if c == 3 then Float else if c == 4 then Byte else if c == 5 then Half
    else if c == 6 then UShort4 else UShort
  }

  lemma CodeInjective(t: ImageDataType, u: ImageDataType)
    ensures Code(t) == Code(u) ==> t == u
  {
  }

  /** The types in code order, as the loops over `IMAGE_DATA_NUM_TYPES` visit them. */
  const AllTypes: seq<ImageDataType> := [Float4, Byte4, Half4, Float, Byte, Half, UShort4, UShort]

  lemma AllTypesComplete()
    ensures forall t: ImageDataType :: t in AllTypes
    ensures forall i :: 0 <= i < |AllTypes| ==> Code(AllTypes[i]) == i
  {
    forall t: ImageDataType
      ensures t in AllTypes
    {
      assert AllTypes[Code(t)] == t;
    }
  }

  // ---------------------------------------------------------------------------
  // Flat slot numbers
  // ---------------------------------------------------------------------------

  /** `type_index_to_flattened_slot`. Outside Fermi mode `(slot << 3) | type`. */
  function Encode(fermi: bool, slot: nat, t: ImageDataType): (flat: int)
    ensures !fermi ==> flat >= 0 && Decode(false, flat) == (t, slot)
    ensures fermi && t == Byte4 ==> Decode(true, flat) == (Byte4, slot)
    ensures fermi && t != Byte4 && slot < 4 ==> Decode(true, flat) == (Float4, slot)
  {
    if fermi then (if t == Byte4 then slot + 5 else slot)
    else slot * 8 + Code(t)
  }

  /** `flattened_slot_to_type_index`, returning the type and the slot. Outside Fermi mode
      `flat & 7` and `flat >> 3`; for the two's-complement integers of the source these
      are the Euclidean remainder and quotient by 8, also for negative numbers. */
  function Decode(fermi: bool, flat: int): (r: (ImageDataType, int))
    ensures !fermi ==> Code(r.0) == flat % 8 && r.1 == flat / 8
    ensures fermi ==> (flat >= 4 <==> r.0 == Byte4) && (r.0 == Byte4 || r.0 == Float4)
  {
    if fermi then (if flat >= 4 then (Byte4, flat - 5) else (Float4, flat))
    else (TypeOfCode(flat % 8), flat / 8)
  }

  /** Outside Fermi mode, encoding is a bijection from (slot, type) pairs onto the
      non-negative integers: decoding recovers the pair, and the low three bits are the
      type code. */
  lemma EncodeDecodeRoundTrip(slot: nat, t: ImageDataType)
    ensures Decode(false, Encode(false, slot, t)) == (t, slot)
    ensures Encode(false, slot, t) % 8 == Code(t)
  {
    var flat := Encode(false, slot, t);
    assert flat / 8 == slot && flat % 8 == Code(t);
    CodeInjective(Decode(false, flat).0, t);
  }

  lemma DecodeEncodeRoundTrip(flat: nat)
    ensures Decode(false, flat).1 >= 0
    ensures Encode(false, Decode(false, flat).1 as nat, Decode(false, flat).0) == flat
  {
  }

  /** In Fermi mode BYTE4 slots survive the round trip, and FLOAT4 slots only below 4. */
  lemma FermiRoundTrip(slot: nat, t: ImageDataType)
    requires t == Byte4 || (t == Float4 && slot < 4)
    ensures Decode(true, Encode(true, slot, t)) == (t, slot)
  {
  }

  /** The Fermi decoder's boundary and the encoder's offset do not meet: FLOAT4 slot 4
      encodes to 4, which decodes to BYTE4 slot -1. */
  lemma FermiFloat4SlotFourMisdecodes()
    ensures Encode(true, 4, Float4) == 4
    ensures Decode(true, Encode(true, 4, Float4)) == (Byte4, -1)
  {
  }

  // ---------------------------------------------------------------------------
  // Images and tables
  // ---------------------------------------------------------------------------

  datatype Interpolation = Linear | Closest | Cubic | Smart
  datatype Extension = Repeat | Extend | Clip

  /** What `image_equals` compares: file name, the builtin and generated data handles
      (compared by identity) and the sampling settings. */
  datatype ImageKey = ImageKey(filename: string, builtinData: int, generatedData: int,
                               interpolation: Interpolation, extension: Extension)

  datatype Image = Image(key: ImageKey, users: int, needLoad: bool, animated: bool,
                         frame: real, useAlpha: bool, srgb: bool)

  type Table = seq<Option<Image>>

  /** Device limits fixed when the manager is built. */
  datatype Limits = Limits(fermi: bool, hasHalfImages: bool, maxNumImages: int,
                           numByte4Cuda: int, numFloat4Cuda: int)

  datatype Manager = Manager(limits: Limits, images: map<ImageDataType, Table>,
                             texNumImages: map<ImageDataType, int>, needUpdate: bool)

  /** Every type has a table and a counter. */
  ghost predicate WellFormed(m: Manager) {
    forall t: ImageDataType :: t in m.images && t in m.texNumImages
  }

  datatype DeviceType = Cpu | Cuda | OpenCL | Network | Multi

  /** A device description; for a multi-device, `firstSubType` is the type of its first
      member. */
  datatype DeviceInfo = DeviceInfo(dtype: DeviceType, hasBindlessTextures: bool, firstSubType: DeviceType)

  function EmptyTables(): (r: map<ImageDataType, Table>)
    ensures forall t: ImageDataType :: t in r && r[t] == []
  {
    AllTypesComplete();
    map t: ImageDataType | t in AllTypes :: []
  }

  function ZeroCounts(): (r: map<ImageDataType, int>)
    ensures forall t: ImageDataType :: t in r && r[t] == 0
  {
    AllTypesComplete();
    map t: ImageDataType | t in AllTypes :: 0
  }

  /** The constructor: Fermi limits for CUDA without bindless textures, no half-float
      images there or on OpenCL; every counter zero and an update pending. */
  function NewManager(info: DeviceInfo, texNumMax: int, numByte4Cuda: int, numFloat4Cuda: int): (m: Manager)
    ensures WellFormed(m) && m.needUpdate
    ensures forall t: ImageDataType :: m.images[t] == [] && m.texNumImages[t] == 0
    ensures var d := if info.dtype == Multi then info.firstSubType else info.dtype;
            (m.limits.fermi <==> d == Cuda && !info.hasBindlessTextures)
            && (m.limits.hasHalfImages <==> !m.limits.fermi && d != OpenCL)
    ensures m.limits.maxNumImages == texNumMax
  {
    var d := if info.dtype == Multi then info.firstSubType else info.dtype;
    var fermi := d == Cuda && !info.hasBindlessTextures;
    var half := if d == Cuda then !fermi else d != OpenCL;
    Manager(Limits(fermi, half, texNumMax, numByte4Cuda, numFloat4Cuda), EmptyTables(), ZeroCounts(), true)
  }

  /** The number of occupied slots of a table. */
  function Occupied(tbl: Table): (n: nat)
    ensures n <= |tbl|
    decreases |tbl|
  {
    if tbl == [] then 0 else (if tbl[0].Some? then 1 else 0) + Occupied(tbl[1..])
  }

  /** The bookkeeping invariant: each counter is the number of images in its table. */
  ghost predicate CountsMatch(m: Manager)
    requires WellFormed(m)
  {
    forall t: ImageDataType :: m.texNumImages[t] == Occupied(m.images[t])
  }

  /** The first slot holding an image equal to `key`. */
  function FindImage(tbl: Table, key: ImageKey): (r: Option<nat>)
    ensures r.Some? ==> r.value < |tbl| && tbl[r.value].Some? && tbl[r.value].value.key == key
    ensures r.Some? ==> forall j :: 0 <= j < r.value ==> !(tbl[j].Some? && tbl[j].value.key == key)
    ensures r.None? ==> forall j :: 0 <= j < |tbl| ==> !(tbl[j].Some? && tbl[j].value.key == key)
    decreases |tbl|
  {
    if tbl == [] then None
    else if tbl[0].Some? && tbl[0].value.key == key then Some(0)
    else match FindImage(tbl[1..], key)
      case None => None
      case Some(j) => Some(j + 1)
  }

  /** The lowest empty slot, or the table size when every slot is taken. */
  function FreeSlot(tbl: Table): (s: nat)
    ensures s <= |tbl|
    ensures s < |tbl| ==> tbl[s].None?
    ensures forall j :: 0 <= j < s ==> tbl[j].Some?
    decreases |tbl|
  {
    if tbl == [] || tbl[0].None? then 0 else 1 + FreeSlot(tbl[1..])
  }

  /** The type an image is stored as: half types become float types without half
      support, and on Fermi single-channel float and byte become four-channel. */
  function StorageType(limits: Limits, t: ImageDataType): (r: ImageDataType)
    ensures limits.fermi ==> r != Float && r != Byte
    ensures !limits.hasHalfImages ==> r != Half4 && r != Half
    ensures limits.hasHalfImages && !limits.fermi ==> r == t
    // what each converted type becomes
    ensures t == Half4 && !limits.hasHalfImages ==> r == Float4
    ensures t == Half && !limits.hasHalfImages ==> r == (if limits.fermi then Float4 else Float)
    ensures limits.fermi && t == Float ==> r == Float4
    ensures limits.fermi && t == Byte ==> r == Byte4
    // every other type is kept
    ensures t in {Float4, Byte4, UShort4, UShort} ==> r == t
    ensures (t == Half4 || t == Half) && limits.hasHalfImages ==> r == t
    ensures (t == Float || t == Byte) && !limits.fermi ==> r == t
  {
    var t1 := if t == Half4 && !limits.hasHalfImages then Float4
              else if t == Half && !limits.hasHalfImages then Float else t;
    if t1 == Float && limits.fermi then Float4
    else if t1 == Byte && limits.fermi then Byte4 else t1
  }

  /** A type already in storage form is stored as itself, so the conversion is a
      normal form: converting twice is converting once. */
  lemma StorageTypeIdempotent(limits: Limits, t: ImageDataType)
    ensures StorageType(limits, StorageType(limits, t)) == StorageType(limits, t)
  {
  }

  /** The sum of all counters, in type order. */
  function TotalCount(m: Manager, types: seq<ImageDataType>): int
    requires WellFormed(m)
  {
    if types == [] then 0 else m.texNumImages[types[0]] + TotalCount(m, types[1..])
  }

  /** Whether `add_image` refuses a new image. */
  predicate OverLimit(m: Manager)
    requires WellFormed(m)
  {
    if m.limits.fermi then
      m.texNumImages[Byte4] == m.limits.numByte4Cuda || m.texNumImages[Float4] == m.limits.numFloat4Cuda
    else TotalCount(m, AllTypes) > m.limits.maxNumImages
  }

  /** The result of `add_image`: the manager, the flat slot (-1 when refused) and the
      `is_float` output. */
  datatype AddResult = AddResult(m: Manager, flat: int, isFloat: bool)

  /** `add_image`. `metaType` and `isLinear` are what `get_image_metadata` reports for
      the file. */
  function AddImage(m: Manager, key: ImageKey, animated: bool, frame: real, useAlpha: bool, srgb: bool,
                    metaType: ImageDataType, isLinear: bool): (r: AddResult)
    requires WellFormed(m)
    ensures WellFormed(r.m) && r.m.limits == m.limits
    ensures r.isFloat <==> metaType == Float || metaType == Float4
  {
    var isFloat := metaType == Float || metaType == Float4;
    var t := StorageType(m.limits, metaType);
    var tbl := m.images[t];
    match FindImage(tbl, key)
    case Some(s) =>
      var img := tbl[s].value;
      var reload := img.needLoad || img.frame != frame || img.useAlpha != useAlpha;
      var img' := img.(frame := frame, useAlpha := useAlpha, needLoad := reload, users := img.users + 1);
      AddResult(m.(images := m.images[t := tbl[s := Some(img')]]), Encode(m.limits.fermi, s, t), isFloat)
    case None =>
      if OverLimit(m) then AddResult(m, -1, isFloat)
      else
        var s := FreeSlot(tbl);
        var grown := if s == |tbl| then tbl + [None] else tbl;
        var img := Image(key, 1, true, animated, frame, useAlpha, srgb && !isLinear);
        AddResult(Manager(m.limits, m.images[t := grown[s := Some(img)]],
                          m.texNumImages[t := m.texNumImages[t] + 1], true),
                  Encode(m.limits.fermi, s, t), isFloat)
  }

  /** An image equal to `key` already stored: one more user, a reload when the frame or
      the alpha setting changed, its flat slot returned, and nothing else touched. */
  lemma AddImageExisting(m: Manager, key: ImageKey, animated: bool, frame: real, useAlpha: bool, srgb: bool,
                         metaType: ImageDataType, isLinear: bool, s: nat)
    requires WellFormed(m)
    requires FindImage(m.images[StorageType(m.limits, metaType)], key) == Some(s)
    ensures var r := AddImage(m, key, animated, frame, useAlpha, srgb, metaType, isLinear);
            var t := StorageType(m.limits, metaType);
            var tbl := m.images[t];
            r.flat == Encode(m.limits.fermi, s, t)
            && r.m.texNumImages == m.texNumImages && r.m.needUpdate == m.needUpdate
            && |r.m.images[t]| == |tbl|
            && r.m.images[t][s].Some?
            && r.m.images[t][s].value.key == key
            && r.m.images[t][s].value.users == tbl[s].value.users + 1
            && r.m.images[t][s].value.frame == frame && r.m.images[t][s].value.useAlpha == useAlpha
            && (r.m.images[t][s].value.needLoad
                <==> tbl[s].value.needLoad || tbl[s].value.frame != frame || tbl[s].value.useAlpha != useAlpha)
            && (forall j :: 0 <= j < |tbl| && j != s ==> r.m.images[t][j] == tbl[j])
            && (forall u: ImageDataType :: u != t ==> r.m.images[u] == m.images[u])
  {
  }

  /** A new image over the limit: -1 and no change at all. */
  lemma AddImageRefused(m: Manager, key: ImageKey, animated: bool, frame: real, useAlpha: bool, srgb: bool,
                        metaType: ImageDataType, isLinear: bool)
    requires WellFormed(m)
    requires FindImage(m.images[StorageType(m.limits, metaType)], key).None? && OverLimit(m)
    ensures var r := AddImage(m, key, animated, frame, useAlpha, srgb, metaType, isLinear);
            r.flat == -1 && r.m == m
  {
  }

  /** A new image within the limit: stored in the lowest empty slot, or appended, with one
      user and a pending load; its type's counter grows by one and an update is
      requested. */
  lemma AddImageNew(m: Manager, key: ImageKey, animated: bool, frame: real, useAlpha: bool, srgb: bool,
                    metaType: ImageDataType, isLinear: bool)
    requires WellFormed(m)
    requires FindImage(m.images[StorageType(m.limits, metaType)], key).None? && !OverLimit(m)
    ensures var r := AddImage(m, key, animated, frame, useAlpha, srgb, metaType, isLinear);
            var t := StorageType(m.limits, metaType);
            var tbl := m.images[t];
            var s := FreeSlot(tbl);
            r.flat == Encode(m.limits.fermi, s, t)
            && r.m.needUpdate
            && r.m.texNumImages == m.texNumImages[t := m.texNumImages[t] + 1]
            && |r.m.images[t]| == (if s == |tbl| then |tbl| + 1 else |tbl|)
            && r.m.images[t][s] == Some(Image(key, 1, true, animated, frame, useAlpha, srgb && !isLinear))
            && (forall j :: 0 <= j < |tbl| && j != s ==> r.m.images[t][j] == tbl[j])
            && (forall u: ImageDataType :: u != t ==> r.m.images[u] == m.images[u])
  {
  }

  lemma {:induction false} OccupiedUpdate(tbl: Table, s: nat, v: Option<Image>)
    requires s < |tbl|
    ensures Occupied(tbl[s := v]) == Occupied(tbl) - (if tbl[s].Some? then 1 else 0) + (if v.Some? then 1 else 0)
    decreases |tbl|
  {
    if s > 0 {
      OccupiedUpdate(tbl[1..], s - 1, v);
      assert tbl[s := v][1..] == tbl[1..][s - 1 := v];
    }
  }

  lemma {:induction false} OccupiedAppendNone(tbl: Table)
    ensures Occupied(tbl + [None]) == Occupied(tbl)
    decreases |tbl|
  {
    if tbl != [] {
      OccupiedAppendNone(tbl[1..]);
      assert (tbl + [None])[1..] == tbl[1..] + [None];
    } else {
      var one: Table := [None];
      assert one[1..] == [];
    }
  }

  /** Adding an image keeps every counter equal to the number of images of its type. */
  lemma AddImageKeepsCounts(m: Manager, key: ImageKey, animated: bool, frame: real, useAlpha: bool, srgb: bool,
                            metaType: ImageDataType, isLinear: bool)
    requires WellFormed(m) && CountsMatch(m)
    ensures var r := AddImage(m, key, animated, frame, useAlpha, srgb, metaType, isLinear);
            WellFormed(r.m) && CountsMatch(r.m)
  {
    var t := StorageType(m.limits, metaType);
    match FindImage(m.images[t], key)
    case Some(s) =>
      AddExistingKeepsCounts(m, key, animated, frame, useAlpha, srgb, metaType, isLinear, s);
    case None =>
      if !OverLimit(m) {
        AddNewKeepsCounts(m, key, animated, frame, useAlpha, srgb, metaType, isLinear);
      }
  }

  lemma AddExistingKeepsCounts(m: Manager, key: ImageKey, animated: bool, frame: real, useAlpha: bool, srgb: bool,
                               metaType: ImageDataType, isLinear: bool, s: nat)
    requires WellFormed(m) && CountsMatch(m)
    requires FindImage(m.images[StorageType(m.limits, metaType)], key) == Some(s)
    ensures var r := AddImage(m, key, animated, frame, useAlpha, srgb, metaType, isLinear);
            WellFormed(r.m) && CountsMatch(r.m)
  {
    var t := StorageType(m.limits, metaType);
    var tbl := m.images[t];
    var r := AddImage(m, key, animated, frame, useAlpha, srgb, metaType, isLinear);
    var tbl' := r.m.images[t];
    assert r.m.images == m.images[t := tbl'] && tbl' == tbl[s := tbl'[s]];
    OccupiedUpdate(tbl, s, tbl'[s]);
    CountsMatchAfter(m, r.m, t, 0);
  }

  lemma AddNewKeepsCounts(m: Manager, key: ImageKey, animated: bool, frame: real, useAlpha: bool, srgb: bool,
                          metaType: ImageDataType, isLinear: bool)
    requires WellFormed(m) && CountsMatch(m)
    requires FindImage(m.images[StorageType(m.limits, metaType)], key).None? && !OverLimit(m)
    ensures var r := AddImage(m, key, animated, frame, useAlpha, srgb, metaType, isLinear);
            WellFormed(r.m) && CountsMatch(r.m)
  {
    var t := StorageType(m.limits, metaType);
    var tbl := m.images[t];
    var r := AddImage(m, key, animated, frame, useAlpha, srgb, metaType, isLinear);
    var s := FreeSlot(tbl);
    var grown := if s == |tbl| then tbl + [None] else tbl;
    var tbl' := r.m.images[t];
    assert r.m.images == m.images[t := tbl'] && tbl' == grown[s := tbl'[s]];
    if s == |tbl| {
      OccupiedAppendNone(tbl);
    }
    OccupiedUpdate(grown, s, tbl'[s]);
    CountsMatchAfter(m, r.m, t, 1);
  }

  /** Replacing one type's table keeps the counters right when its counter moves with
      the table's occupancy. */
  lemma CountsMatchAfter(m: Manager, m': Manager, t: ImageDataType, delta: int)
    requires WellFormed(m) && CountsMatch(m)
    requires t in m'.images && m'.images == m.images[t := m'.images[t]]
    requires m'.texNumImages == m.texNumImages[t := m.texNumImages[t] + delta]
    requires Occupied(m'.images[t]) == Occupied(m.images[t]) + delta
    ensures WellFormed(m') && CountsMatch(m')
  {
  }

  /** Outside Fermi mode the limit test is strict, so a manager already holding
      `max_num_images` images still accepts one more. */
  lemma NonFermiLimitAdmitsOneMore(m: Manager, key: ImageKey, frame: real, metaType: ImageDataType)
    requires WellFormed(m) && !m.limits.fermi && m.limits.hasHalfImages
    requires TotalCount(m, AllTypes) == m.limits.maxNumImages
    requires FindImage(m.images[metaType], key).None?
    ensures var r := AddImage(m, key, false, frame, false, false, metaType, false);
            r.flat >= 0 && TotalCount(r.m, AllTypes) == m.limits.maxNumImages + 1
  {
    assert StorageType(m.limits, metaType) == metaType;
    assert !OverLimit(m);
    var r := AddImage(m, key, false, frame, false, false, metaType, false);
    AddImageNew(m, key, false, frame, false, false, metaType, false);
    assert r.m.texNumImages == m.texNumImages[metaType := m.texNumImages[metaType] + 1];
    AllTypesComplete();
    TotalCountIncrement(m, r.m, metaType, AllTypes);
  }

  /** Adding one to a counter adds one to the total over a list of distinct types that
      includes it. */
  lemma {:induction false} TotalCountIncrement(m: Manager, m': Manager, t: ImageDataType, types: seq<ImageDataType>)
    requires WellFormed(m) && WellFormed(m')
    requires m'.texNumImages == m.texNumImages[t := m.texNumImages[t] + 1]
    requires forall i, j :: 0 <= i < j < |types| ==> Code(types[i]) != Code(types[j])
    ensures TotalCount(m', types) == TotalCount(m, types) + (if t in types then 1 else 0)
    decreases |types|
  {
    if types != [] {
      TotalCountIncrement(m, m', t, types[1..]);
      if types[0] == t {
        assert forall i :: 0 <= i < |types[1..]| ==> types[1..][i] != t by {
          forall i | 0 <= i < |types[1..]|
            ensures types[1..][i] != t
          {
            assert Code(types[0]) != Code(types[i + 1]);
          }
        }
      }
    }
  }

  /** `remove_image(flat_slot)`: one user fewer; the entry stays, and an update is
      requested once nobody uses it. The source asserts the image exists and is used. */
  function RemoveImage(m: Manager, flat: int): (r: Manager)
    requires WellFormed(m)
    requires var (t, s) := Decode(m.limits.fermi, flat);
             0 <= s < |m.images[t]| && m.images[t][s].Some? && m.images[t][s].value.users >= 1
    ensures WellFormed(r) && r.texNumImages == m.texNumImages && r.limits == m.limits
    ensures var (t, s) := Decode(m.limits.fermi, flat);
            |r.images[t]| == |m.images[t]| && r.images[t][s].Some?
            && r.images[t][s].value == m.images[t][s].value.(users := m.images[t][s].value.users - 1)
            && (forall j :: 0 <= j < |m.images[t]| && j != s ==> r.images[t][j] == m.images[t][j])
            && (forall u: ImageDataType :: u != t ==> r.images[u] == m.images[u])
            && (r.needUpdate <==> m.needUpdate || r.images[t][s].value.users == 0)
  {
    var (t, s) := Decode(m.limits.fermi, flat);
    var img := m.images[t][s].value;
    var img' := img.(users := img.users - 1);
    m.(images := m.images[t := m.images[t][s := Some(img')]], needUpdate := m.needUpdate || img'.users == 0)
  }

  /** No image has a negative user count; every operation here keeps it so. */
  ghost predicate UsersNonNegative(m: Manager)
    requires WellFormed(m)
  {
    forall t: ImageDataType, j :: 0 <= j < |m.images[t]| && m.images[t][j].Some? ==> m.images[t][j].value.users >= 0
  }

  /** Adding an image and removing it again by the slot `add_image` returned leaves the
      user count as it was before the add (zero for an image that was new). */
  lemma AddThenRemoveRestoresUsers(m: Manager, key: ImageKey, frame: real, useAlpha: bool,
                                   metaType: ImageDataType, isLinear: bool)
    requires WellFormed(m) && !m.limits.fermi && UsersNonNegative(m)
    ensures var r := AddImage(m, key, false, frame, useAlpha, false, metaType, isLinear);
            var t := StorageType(m.limits, metaType);
            var s := FindImage(m.images[t], key);
            r.flat >= 0 ==>
              var (t', slot) := Decode(false, r.flat);
              t' == t && 0 <= slot < |r.m.images[t]| && r.m.images[t][slot].Some?
              && r.m.images[t][slot].value.users >= 1
              && RemoveImage(r.m, r.flat).images[t][slot].value.users
                 == (if s.Some? then m.images[t][s.value].value.users else 0)
  {
    var r := AddImage(m, key, false, frame, useAlpha, false, metaType, isLinear);
    var t := StorageType(m.limits, metaType);
    var found := FindImage(m.images[t], key);
    if r.flat >= 0 {
      if found.Some? {
        AddImageExisting(m, key, false, frame, useAlpha, false, metaType, isLinear, found.value);
      } else if OverLimit(m) {
        AddImageRefused(m, key, false, frame, useAlpha, false, metaType, isLinear);
      } else {
        AddImageNew(m, key, false, frame, useAlpha, false, metaType, isLinear);
      }
      var slot := if found.Some? then found.value else FreeSlot(m.images[t]);
      EncodeDecodeRoundTrip(slot, t);
    }
  }

  /** Removing a user keeps the counters: the entry stays in its table. */
  lemma RemoveImageKeepsCounts(m: Manager, flat: int)
    requires WellFormed(m) && CountsMatch(m)
    requires var (t, s) := Decode(m.limits.fermi, flat);
             0 <= s < |m.images[t]| && m.images[t][s].Some? && m.images[t][s].value.users >= 1
    ensures WellFormed(RemoveImage(m, flat)) && CountsMatch(RemoveImage(m, flat))
  {
    var (t, s) := Decode(m.limits.fermi, flat);
    var r := RemoveImage(m, flat);
    OccupiedUpdate(m.images[t], s, r.images[t][s]);
    assert r.images[t] == m.images[t][s := r.images[t][s]];
  }

  /** The first image equal to `key`, scanning the types in code order starting at
      `AllTypes[k]`: its type and slot. */
  function FindAny(m: Manager, key: ImageKey, k: nat): (r: Option<(ImageDataType, nat)>)
    requires WellFormed(m) && k <= |AllTypes|
    ensures r.Some? ==> var (t, s) := r.value;
            s < |m.images[t]| && m.images[t][s].Some? && m.images[t][s].value.key == key
            && FindImage(m.images[t], key) == Some(s)
    ensures r.None? ==> forall i :: k <= i < |AllTypes| ==> FindImage(m.images[AllTypes[i]], key).None?
    decreases |AllTypes| - k
  {
    if k == |AllTypes| then None
    else match FindImage(m.images[AllTypes[k]], key)
      case Some(s) => Some((AllTypes[k], s))
      case None => FindAny(m, key, k + 1)
  }

  /** Whether `remove_image(flat_slot)` may be called on `flat`: its assertion holds. */
  predicate Removable(m: Manager, flat: int)
    requires WellFormed(m)
  {
    var (t, s) := Decode(m.limits.fermi, flat);
    0 <= s < |m.images[t]| && m.images[t][s].Some? && m.images[t][s].value.users >= 1
  }

  /** `remove_image` by key: the first matching image, in type order, loses a user; with
      no match nothing happens. The removal goes through the flat slot number, so it
      reaches the found image only where decoding inverts encoding. */
  function RemoveImageByKey(m: Manager, key: ImageKey): (r: Manager)
    requires WellFormed(m)
    requires var f := FindAny(m, key, 0);
             f.Some? ==> Removable(m, Encode(m.limits.fermi, f.value.1, f.value.0))
    ensures WellFormed(r) && r.texNumImages == m.texNumImages
    ensures FindAny(m, key, 0).None? ==> r == m
    ensures !m.limits.fermi && FindAny(m, key, 0).Some? ==>
              var (t, s) := FindAny(m, key, 0).value;
              |r.images[t]| == |m.images[t]| && r.images[t][s].Some? && r.images[t][s].value.users == m.images[t][s].value.users - 1
              && (forall j :: 0 <= j < |m.images[t]| && j != s ==> r.images[t][j] == m.images[t][j])
              && (forall u: ImageDataType :: u != t ==> r.images[u] == m.images[u])
  {
    match FindAny(m, key, 0)
    case None => m
    case Some((t, s)) =>
      if !m.limits.fermi then EncodeDecodeRoundTrip(s, t); RemoveImage(m, Encode(m.limits.fermi, s, t))
      else RemoveImage(m, Encode(m.limits.fermi, s, t))
  }

  /** Under Fermi limits, removing by key an image stored as USHORT4 at slot 0 lowers
      the user count of the FLOAT4 image at slot 0 instead, since the flat number 0
      decodes to FLOAT4. */
  lemma FermiRemoveByKeyMisroutes(m: Manager, key: ImageKey, img: Image, other: Image)
    requires WellFormed(m) && m.limits.fermi
    requires img.key == key && img.users >= 1 && other.key != key && other.users >= 1
    requires forall t: ImageDataType :: t != UShort4 && t != Float4 ==> m.images[t] == []
    requires m.images[Float4] == [Some(other)] && m.images[UShort4] == [Some(img)]
    ensures FindAny(m, key, 0) == Some((UShort4, 0))
    ensures var r := RemoveImageByKey(m, key);
            r.images[UShort4] == m.images[UShort4]
            && r.images[Float4][0].value.users == other.users - 1
  {
    assert FindImage(m.images[Float4], key) == None;
    assert FindImage(m.images[UShort4], key) == Some(0);
    assert AllTypes[6] == UShort4;
    assert FindAny(m, key, 7) == None;
  }

  /** `tag_reload_image`: in every type's table, the first image equal to `key` is marked
      for reloading; nothing else changes. */
  function TagReloadImage(m: Manager, key: ImageKey): (r: Manager)
    requires WellFormed(m)
    ensures WellFormed(r) && r.limits == m.limits && r.texNumImages == m.texNumImages && r.needUpdate == m.needUpdate
    ensures forall t: ImageDataType :: |r.images[t]| == |m.images[t]|
    ensures forall t: ImageDataType, j :: 0 <= j < |m.images[t]| ==>
              r.images[t][j] == (if FindImage(m.images[t], key) == Some(j)
                                 then Some(m.images[t][j].value.(needLoad := true)) else m.images[t][j])
  {
    AllTypesComplete();
    m.(images := map t: ImageDataType | t in AllTypes :: TagFirst(m.images[t], key))
  }

  function TagFirst(tbl: Table, key: ImageKey): (r: Table)
    ensures |r| == |tbl|
    ensures forall j :: 0 <= j < |tbl| ==>
              r[j] == (if FindImage(tbl, key) == Some(j) then Some(tbl[j].value.(needLoad := true)) else tbl[j])
  {
    match FindImage(tbl, key)
    case None => tbl
    case Some(s) => tbl[s := Some(tbl[s].value.(needLoad := true))]
  }

  /** Tagging for reload is idempotent. */
  lemma TagReloadIdempotent(m: Manager, key: ImageKey)
    requires WellFormed(m)
    ensures TagReloadImage(TagReloadImage(m, key), key) == TagReloadImage(m, key)
  {
    var r := TagReloadImage(m, key);
    forall t: ImageDataType
      ensures TagFirst(r.images[t], key) == r.images[t]
    {
      FindImageTagged(m.images[t], key);
    }
  }

  lemma FindImageTagged(tbl: Table, key: ImageKey)
    ensures FindImage(TagFirst(tbl, key), key) == FindImage(tbl, key)
    ensures TagFirst(TagFirst(tbl, key), key) == TagFirst(tbl, key)
  {
    var r := TagFirst(tbl, key);
    FindImageKeyed(tbl, r, key);
  }

  /** Tables holding images with the same keys at the same places answer every lookup
      alike. */
  lemma {:induction false} FindImageKeyed(a: Table, b: Table, key: ImageKey)
    requires |a| == |b|
    requires forall j :: 0 <= j < |a| ==> a[j].Some? == b[j].Some? && (a[j].Some? ==> a[j].value.key == b[j].value.key)
    ensures FindImage(a, key) == FindImage(b, key)
    decreases |a|
  {
    if a != [] {
      FindImageKeyed(a[1..], b[1..], key);
    }
  }

  /** `device_free_image`: an occupied slot is emptied and its type's counter drops; an
      empty slot is left alone. The slot must lie inside the table. */
  function DeviceFreeImage(m: Manager, t: ImageDataType, slot: nat): (r: Manager)
    requires WellFormed(m) && slot < |m.images[t]|
    ensures WellFormed(r) && r.limits == m.limits && r.needUpdate == m.needUpdate
    ensures r.images == m.images[t := m.images[t][slot := None]]
    ensures r.texNumImages == m.texNumImages[t := m.texNumImages[t] - (if m.images[t][slot].Some? then 1 else 0)]
  {
    if m.images[t][slot].Some? then
      m.(images := m.images[t := m.images[t][slot := None]],
         texNumImages := m.texNumImages[t := m.texNumImages[t] - 1])
    else
      assert m.images[t][slot := None] == m.images[t];
      m
  }

  /** Freeing keeps every counter equal to the number of images of its type. */
  lemma DeviceFreeKeepsCounts(m: Manager, t: ImageDataType, slot: nat)
    requires WellFormed(m) && CountsMatch(m) && slot < |m.images[t]|
    ensures CountsMatch(DeviceFreeImage(m, t, slot))
  {
    OccupiedUpdate(m.images[t], slot, None);
  }

  // ---------------------------------------------------------------------------
  // Options and names
  // ---------------------------------------------------------------------------

  /** `pack_image_options`: bit 0 for closest interpolation, then one of bits 1, 2, 3 for
      repeat, extend and clip. */
  function PackImageOptions(interpolation: Interpolation, extension: Extension): (o: bv8)
    ensures o & 0xF0 == 0
    ensures (o & 1 == 1) <==> interpolation == Closest
    ensures (o & 2 == 2) <==> extension == Repeat
    ensures (o & 4 == 4) <==> extension == Extend
    ensures (o & 8 == 8) <==> extension == Clip
  {
    (if interpolation == Closest then 1 else 0)
    | (match extension case Repeat => 2 case Extend => 4 case Clip => 8)
  }

  /** What the kernel reads back from the packed byte. */
  function UnpackExtension(o: bv8): Extension {
    if o & 2 == 2 then Repeat else if o & 4 == 4 then Extend else Clip
  }

  /** The packed options recover the extension and whether the lookup is closest. */
  lemma PackImageOptionsRoundTrip(interpolation: Interpolation, extension: Extension)
    ensures UnpackExtension(PackImageOptions(interpolation, extension)) == extension
    ensures (PackImageOptions(interpolation, extension) & 1 == 1) <==> interpolation == Closest
  {
  }

  /** `name_from_type`, on the integer type code; unknown codes read as "byte4". */
  function NameFromType(code: int): (name: string)
    ensures code < 0 || code >= 8 ==> name == "byte4"
    ensures 0 <= code < 8 ==> TypeFromName(name) == Some(TypeOfCode(code))
  {
    if code == 0 then "float4" else if code == 3 then "float" else if code == 4 then "byte"
    else if code == 2 then "half4" else if code == 5 then "half" else if code == 7 then "ushort"
    else if code == 6 then "ushort4" else "byte4"
  }

  function TypeFromName(name: string): Option<ImageDataType> {
    if name == "float4" then Some(Float4) else if name == "byte4" then Some(Byte4)
    else if name == "half4" then Some(Half4) else if name == "float" then Some(Float)
    else if name == "byte" then Some(Byte) else if name == "half" then Some(Half)
    else if name == "ushort4" then Some(UShort4) else if name == "ushort" then Some(UShort)
    else None
  }

  /** Every type has its own name: reading the name back gives the type. */
  lemma NameFromTypeInjective(t: ImageDataType)
    ensures TypeFromName(NameFromType(Code(t))) == Some(t)
  {
  }
}
