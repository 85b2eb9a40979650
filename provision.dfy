// Provisioning of a bootloader flash image on the host: the hardware id,
// the reserved word, the three AES signing keys, and the erased (0xFF)
// application, signature and storage regions are written into the image
// parsed from the bootloader's Intel HEX file, each only where that area is
// still blank or already holds exactly the same content.
module Provision {
  import opened Bytes
  import IntelHex

  // Flash layout of the CC1110 (32 KiB).
  const FlashSignatureKeys: nat := 0x03CC
  const FlashReserved: nat := 0x03FC
  const FlashHwid: nat := 0x03FE
  const FlashAppStart: nat := 0x0400
  const FlashAppSignature: nat := 0x6BF0
  const FlashStorageStart: nat := 0x6C00
  const FlashUpdaterStart: nat := 0x7000

  const KeySize: nat := 16

  /** The areas an insert can find occupied. */
  datatype Area = HwidArea | ReservedArea | KeyArea(index: nat) | ApplicationArea | SignatureArea | StorageArea

  /** What an insert raises: ValueError naming the area, or `struct.error`
      for a value that does not pack as an unsigned 16-bit word. */
  datatype ProvisionError = TooManyKeys | NotEmpty(area: Area) | StructError

  /** The image after an insert, and the exception it raised, if any. The
      image is a bytearray changed in place, so a raise part-way through
      the keys leaves the earlier keys written. */
  datatype Outcome = Outcome(image: seq<byte>, error: Option<ProvisionError>)

  /** No byte of `s` is non-zero. */
  predicate Blank(s: seq<byte>)
  {
    forall k :: 0 <= k < |s| ==> s[k] == 0
  }

  /** `s` and `t` have the same length and agree outside `[lo, hi)`. */
  predicate SameOutside(s: seq<byte>, t: seq<byte>, lo: nat, hi: nat)
  {
    |s| == |t| && forall k :: 0 <= k < |s| && !(lo <= k < hi) ==> t[k] == s[k]
  }

  /** The guarded write every insert performs: refuse when the area holds a
      non-zero byte and differs from `content`, otherwise replace it. */
  function Place(s: seq<byte>, lo: nat, hi: nat, content: seq<byte>, area: Area): (r: Outcome)
    ensures r.error.Some? ==> r.error.value == NotEmpty(area) && r.image == s
    ensures (Blank(PySlice(s, lo, hi)) || PySlice(s, lo, hi) == content) <==> r.error.None?
    ensures r.error.None? && lo <= hi <= |s| && |content| == hi - lo ==>
              |r.image| == |s| && r.image[lo..hi] == content && SameOutside(s, r.image, lo, hi)
  {
    var old_ := PySlice(s, lo, hi);
    if !Blank(old_) && old_ != content then Outcome(s, Some(NotEmpty(area)))
    else Outcome(PySliceAssign(s, lo, hi, content), None)
  }

  /** Content already in place is accepted and changes nothing. */
  lemma PlaceSame(t: seq<byte>, lo: nat, hi: nat, content: seq<byte>, area: Area)
    requires lo <= hi <= |t| && t[lo..hi] == content
    ensures Place(t, lo, hi, content, area) == Outcome(t, None)
  {
    assert t[..lo] + content + t[hi..] == t;
  }

  /** Writing the same content again succeeds and changes nothing. */
  lemma PlaceTwice(s: seq<byte>, lo: nat, hi: nat, content: seq<byte>, area: Area)
    requires lo <= hi <= |s| && |content| == hi - lo
    requires Place(s, lo, hi, content, area).error.None?
    ensures var t := Place(s, lo, hi, content, area).image;
            Place(t, lo, hi, content, area) == Outcome(t, None)
  {
    PlaceSame(Place(s, lo, hi, content, area).image, lo, hi, content, area);
  }

  // ---------------------------------------------------------------------
  // The keys

  function KeyStart(i: nat): nat
  {
    FlashSignatureKeys + i * KeySize
  }

  /** Key `i` fits below the reserved word exactly when `i < 3`. */
  lemma KeySlots(i: nat)
    ensures KeyStart(i) + KeySize <= FlashReserved <==> i < 3
  {
  }

  /** `insert_keys` from key `i` on. */
  function WriteKeys(s: seq<byte>, keys: seq<seq<byte>>, i: nat): (r: Outcome)
    requires i <= |keys|
    ensures r.error.Some? ==> r.error.value == TooManyKeys || r.error.value.NotEmpty?
    ensures r.error == Some(TooManyKeys) ==> |keys| > 3
    ensures i <= 3 && r.error.None? ==> |keys| <= 3
    decreases |keys| - i
  {
    if i == |keys| then Outcome(s, None)
    else if KeyStart(i) + KeySize > FlashReserved then Outcome(s, Some(TooManyKeys))
    else
      var o := Place(s, KeyStart(i), KeyStart(i) + KeySize, keys[i], KeyArea(i));
      if o.error.Some? then o else WriteKeys(o.image, keys, i + 1)
  }

  predicate AllKeySized(keys: seq<seq<byte>>)
  {
    forall j :: 0 <= j < |keys| ==> |keys[j]| == KeySize
  }

  /** A successful `insert_keys` leaves each key in its slot and no other
      byte changed. */
  lemma {:induction false} WriteKeysLayout(s: seq<byte>, keys: seq<seq<byte>>, i: nat)
    requires i <= |keys| <= 3 && |s| >= FlashReserved && AllKeySized(keys)
    requires WriteKeys(s, keys, i).error.None?
    ensures var t := WriteKeys(s, keys, i).image;
            && SameOutside(s, t, KeyStart(i), KeyStart(|keys|))
            && forall j :: i <= j < |keys| ==> t[KeyStart(j)..KeyStart(j) + KeySize] == keys[j]
    decreases |keys| - i
  {
    if i < |keys| {
      var o := Place(s, KeyStart(i), KeyStart(i) + KeySize, keys[i], KeyArea(i));
      WriteKeysLayout(o.image, keys, i + 1);
      var t := WriteKeys(o.image, keys, i + 1).image;
      forall j | i <= j < |keys|
        ensures t[KeyStart(j)..KeyStart(j) + KeySize] == keys[j]
      {
        if j == i {
          assert forall k :: KeyStart(i) <= k < KeyStart(i) + KeySize ==> t[k] == o.image[k];
        }
      }
    }
  }

  /** Into a blank key area, up to three keys are always accepted. */
  lemma {:induction false} WriteKeysBlank(s: seq<byte>, keys: seq<seq<byte>>, i: nat)
    requires i <= |keys| <= 3 && |s| >= FlashReserved && AllKeySized(keys)
    requires forall k :: KeyStart(i) <= k < FlashReserved ==> s[k] == 0
    ensures WriteKeys(s, keys, i).error.None?
    decreases |keys| - i
  {
    if i < |keys| {
      var o := Place(s, KeyStart(i), KeyStart(i) + KeySize, keys[i], KeyArea(i));
      assert Blank(s[KeyStart(i)..KeyStart(i) + KeySize]);
      WriteKeysBlank(o.image, keys, i + 1);
    }
  }

  /** A fourth key is refused, whatever the image holds. */
  lemma {:induction false} TooManyKeysRaise(s: seq<byte>, keys: seq<seq<byte>>, i: nat)
    requires i <= 3 < |keys|
    ensures WriteKeys(s, keys, i).error.Some?
    decreases 3 - i
  {
    if i < 3 {
      var o := Place(s, KeyStart(i), KeyStart(i) + KeySize, keys[i], KeyArea(i));
      if o.error.None? {
        TooManyKeysRaise(o.image, keys, i + 1);
      }
    }
  }

  // ---------------------------------------------------------------------
  // The other areas

  /** `struct.pack('<H', v)`. */
  function PackU16(v: int): (r: Result<seq<byte>, ProvisionError>)
    ensures r.Ok? <==> 0 <= v < 0x10000
    ensures r.Ok? ==> |r.value| == 2 && GetLE16(r.value, 0) == v
  {
    if 0 <= v < 0x10000 then Ok(LE16(v as u16)) else Raise(StructError)
  }

  function InsertWord(s: seq<byte>, v: int, lo: nat, area: Area): (r: Outcome)
    ensures r.error == Some(StructError) <==> !(0 <= v < 0x10000)
    ensures r.error.Some? ==> r.image == s
    ensures r.error.None? && lo + 2 <= |s| ==> SameOutside(s, r.image, lo, lo + 2) && GetLE16(r.image, lo) == v
  {
    match PackU16(v)
    case Raise(e) => Outcome(s, Some(e))
    case Ok(b) => Place(s, lo, lo + 2, b, area)
  }

  /** `insert_hwid`. */
  function WithHwid(s: seq<byte>, hwid: int): (r: Outcome)
    ensures r.error == Some(StructError) <==> !(0 <= hwid < 0x10000)
    ensures r.error.Some? ==> r.image == s
    ensures r.error.None? && |s| >= FlashAppStart ==>
              SameOutside(s, r.image, FlashHwid, FlashAppStart) && GetLE16(r.image, FlashHwid) == hwid
  {
    InsertWord(s, hwid, FlashHwid, HwidArea)
  }

  /** `insert_reserved`. */
  function WithReserved(s: seq<byte>, reserved: int): (r: Outcome)
    ensures r.error == Some(StructError) <==> !(0 <= reserved < 0x10000)
    ensures r.error.Some? ==> r.image == s
    ensures r.error.None? && |s| >= FlashHwid ==>
              SameOutside(s, r.image, FlashReserved, FlashHwid) && GetLE16(r.image, FlashReserved) == reserved
  {
    InsertWord(s, reserved, FlashReserved, ReservedArea)
  }

  /** A 16-bit word written into blank space reads back little-endian, and
      nothing else changes. */
  lemma InsertWordLayout(s: seq<byte>, v: int, lo: nat, area: Area)
    requires lo + 2 <= |s| && 0 <= v < 0x10000 && s[lo] == 0 && s[lo + 1] == 0
    ensures var r := InsertWord(s, v, lo, area);
            r.error.None? && GetLE16(r.image, lo) == v && SameOutside(s, r.image, lo, lo + 2)
  {
    assert Blank(s[lo..lo + 2]);
    var r := InsertWord(s, v, lo, area);
    assert r.image[lo..lo + 2] == LE16(v as u16);
  }

  /** `insert_application`, `insert_signature`, `insert_storage`: the
      given content, by default erased flash of exactly the area's size. */
  function WithApplication(s: seq<byte>, app: Option<seq<byte>>): (r: Outcome)
    ensures r.error.Some? ==> r.error.value == NotEmpty(ApplicationArea) && r.image == s
    ensures |s| >= FlashAppSignature && app.None? && r.error.None? ==>
              SameOutside(s, r.image, FlashAppStart, FlashAppSignature)
              && forall k :: FlashAppStart <= k < FlashAppSignature ==> r.image[k] == 0xFF
  {
    var content := if app.Some? then app.value else IntelHex.Erased(FlashAppSignature - FlashAppStart);
    Place(s, FlashAppStart, FlashAppSignature, content, ApplicationArea)
  }

  function WithSignature(s: seq<byte>, sig: Option<seq<byte>>): (r: Outcome)
    ensures r.error.Some? ==> r.error.value == NotEmpty(SignatureArea) && r.image == s
    ensures |s| >= FlashStorageStart && sig.None? && r.error.None? ==>
              SameOutside(s, r.image, FlashAppSignature, FlashStorageStart)
              && forall k :: FlashAppSignature <= k < FlashStorageStart ==> r.image[k] == 0xFF
  {
    var content := if sig.Some? then sig.value else IntelHex.Erased(FlashStorageStart - FlashAppSignature);
    Place(s, FlashAppSignature, FlashStorageStart, content, SignatureArea)
  }

  function WithStorage(s: seq<byte>, storage: Option<seq<byte>>): (r: Outcome)
    ensures r.error.Some? ==> r.error.value == NotEmpty(StorageArea) && r.image == s
    ensures |s| >= FlashUpdaterStart && storage.None? && r.error.None? ==>
              SameOutside(s, r.image, FlashStorageStart, FlashUpdaterStart)
              && forall k :: FlashStorageStart <= k < FlashUpdaterStart ==> r.image[k] == 0xFF
  {
    var content := if storage.Some? then storage.value else IntelHex.Erased(FlashUpdaterStart - FlashStorageStart);
    Place(s, FlashStorageStart, FlashUpdaterStart, content, StorageArea)
  }

  /** The three default areas together cover the flash from the
      application's start to the updater, all erased. */
  lemma DefaultsCoverErased(s: seq<byte>)
    requires |s| >= FlashUpdaterStart
    requires WithApplication(s, None).error.None?
    requires WithSignature(WithApplication(s, None).image, None).error.None?
    requires WithStorage(WithSignature(WithApplication(s, None).image, None).image, None).error.None?
    ensures var t := WithStorage(WithSignature(WithApplication(s, None).image, None).image, None).image;
            SameOutside(s, t, FlashAppStart, FlashUpdaterStart)
            && forall k :: FlashAppStart <= k < FlashUpdaterStart ==> t[k] == 0xFF
  {
    var t1 := WithApplication(s, None).image;
    var t2 := WithSignature(t1, None).image;
    var t3 := WithStorage(t2, None).image;
    forall k | FlashAppStart <= k < FlashUpdaterStart
      ensures t3[k] == 0xFF
    {
      if k < FlashAppSignature {
        assert t1[FlashAppStart..FlashAppSignature][k - FlashAppStart] == 0xFF;
      } else if k < FlashStorageStart {
        assert t2[FlashAppSignature..FlashStorageStart][k - FlashAppSignature] == 0xFF;
      } else {
        assert t3[FlashStorageStart..FlashUpdaterStart][k - FlashStorageStart] == 0xFF;
      }
    }
  }

  /** `LOCK_BITS`: boot block lock off, the top 4 KiB locked, debug
      commands enabled, formatted `'{:02X}'`. */
  function LockBits(): (r: string)
    ensures r == "08"
  {
    Hex2((0 * 32 + 0 * 16 + 4 * 2 + 0) as byte)
  }

  // ---------------------------------------------------------------------
  // tools/flash.py `process`

  /** `process`: the hwid, the keys and the three erased areas, in that
      order; the first refusal stops it. */
  function ProcessImage(s: seq<byte>, hwid: int, keys: seq<seq<byte>>): (r: Outcome)
    ensures r.error == Some(StructError) <==> !(0 <= hwid < 0x10000)
    ensures r.error == Some(TooManyKeys) ==> |keys| > 3
    ensures r.error.None? ==> |keys| <= 3
  {
    var o1 := WithHwid(s, hwid);
    if o1.error.Some? then o1 else
    var o2 := WriteKeys(o1.image, keys, 0);
    if o2.error.Some? then o2 else
    var o3 := WithApplication(o2.image, None);
    if o3.error.Some? then o3 else
    var o4 := WithSignature(o3.image, None);
    if o4.error.Some? then o4 else
    WithStorage(o4.image, None)
  }

  /** The three stages of `process` (hwid, keys, erased areas) combined:
      each writes its own area and leaves the rest alone. */
  lemma StagesLayout(s: seq<byte>, t1: seq<byte>, t2: seq<byte>, t3: seq<byte>, hwid: u16, keys: seq<seq<byte>>)
    requires |s| >= FlashUpdaterStart && |keys| <= 3
    requires SameOutside(s, t1, FlashHwid, FlashAppStart) && t1[FlashHwid..FlashAppStart] == LE16(hwid)
    requires SameOutside(t1, t2, FlashSignatureKeys, KeyStart(|keys|))
    requires forall j :: 0 <= j < |keys| ==> t2[KeyStart(j)..KeyStart(j) + KeySize] == keys[j]
    requires SameOutside(t2, t3, FlashAppStart, FlashUpdaterStart)
    requires forall k :: FlashAppStart <= k < FlashUpdaterStart ==> t3[k] == 0xFF
    ensures ProcessedFrom(s, t3, hwid, keys)
  {
    assert t3[FlashHwid] == t1[FlashHwid] && t3[FlashHwid + 1] == t1[FlashHwid + 1];
    assert t1[FlashHwid..FlashAppStart][0] == t1[FlashHwid];
    assert GetLE16(t3, FlashHwid) == GetLE16(LE16(hwid), 0);
    LE16RoundTrip(hwid);
    forall j | 0 <= j < |keys|
      ensures t3[KeyStart(j)..KeyStart(j) + KeySize] == keys[j]
    {
      assert forall k :: KeyStart(j) <= k < KeyStart(j) + KeySize ==> t3[k] == t2[k];
    }
  }

  /** What `process` leaves: the hwid little-endian, each key in its slot
      and erased flash from the application to the updater, with every
      byte outside those areas as it was. */
  predicate ProcessedFrom(s: seq<byte>, t: seq<byte>, hwid: int, keys: seq<seq<byte>>)
  {
    && |t| == |s| && |s| >= FlashUpdaterStart
    && GetLE16(t, FlashHwid) == hwid
    && (forall j :: 0 <= j < |keys| ==> KeyStart(j) + KeySize <= |t| && t[KeyStart(j)..KeyStart(j) + KeySize] == keys[j])
    && (forall k :: FlashAppStart <= k < FlashUpdaterStart ==> t[k] == 0xFF)
    && (forall k :: 0 <= k < |s| && !(FlashSignatureKeys <= k < KeyStart(|keys|)) && !(FlashHwid <= k < FlashUpdaterStart) ==> t[k] == s[k])
  }

  /** A successful `process` accepted at most three keys and a 16-bit
      hwid, and left the image as `ProcessedFrom` describes. */
  lemma ProcessLayout(s: seq<byte>, hwid: int, keys: seq<seq<byte>>)
    requires |s| >= FlashUpdaterStart && AllKeySized(keys)
    requires ProcessImage(s, hwid, keys).error.None?
    ensures |keys| <= 3 && 0 <= hwid < 0x10000
    ensures ProcessedFrom(s, ProcessImage(s, hwid, keys).image, hwid, keys)
  {
    var o1 := WithHwid(s, hwid);
    var o2 := WriteKeys(o1.image, keys, 0);
    WriteKeysLayout(o1.image, keys, 0);
    DefaultsCoverErased(o2.image);
    var t3 := WithStorage(WithSignature(WithApplication(o2.image, None).image, None).image, None).image;
    assert ProcessImage(s, hwid, keys).image == t3;
    StagesLayout(s, o1.image, o2.image, t3, hwid as u16, keys);
  }

  /** An image whose hwid and key area are zero and whose flash from the
      application on is erased is always accepted, with up to three keys
      and any 16-bit hwid. */
  lemma ProcessAcceptsBlank(s: seq<byte>, hwid: int, keys: seq<seq<byte>>)
    requires |s| >= FlashUpdaterStart && |keys| <= 3 && AllKeySized(keys) && 0 <= hwid < 0x10000
    requires forall k :: FlashSignatureKeys <= k < FlashAppStart ==> s[k] == 0
    requires forall k :: FlashAppStart <= k < FlashUpdaterStart ==> s[k] == 0xFF
    ensures ProcessImage(s, hwid, keys).error.None?
  {
    assert Blank(s[FlashHwid..FlashAppStart]);
    var t1 := WithHwid(s, hwid).image;
    WriteKeysBlank(t1, keys, 0);
    var t2 := WriteKeys(t1, keys, 0).image;
    WriteKeysLayout(t1, keys, 0);
    ErasedKept(t2);
  }

  /** Erased flash from the application to the updater is accepted by the
      three default inserts unchanged. */
  lemma ErasedKept(t: seq<byte>)
    requires |t| >= FlashUpdaterStart
    requires forall k :: FlashAppStart <= k < FlashUpdaterStart ==> t[k] == 0xFF
    ensures WithApplication(t, None) == Outcome(t, None)
    ensures WithSignature(t, None) == Outcome(t, None)
    ensures WithStorage(t, None) == Outcome(t, None)
  {
    assert t[FlashAppStart..FlashAppSignature] == IntelHex.Erased(FlashAppSignature - FlashAppStart);
    PlaceSame(t, FlashAppStart, FlashAppSignature, IntelHex.Erased(FlashAppSignature - FlashAppStart), ApplicationArea);
    assert t[FlashAppSignature..FlashStorageStart] == IntelHex.Erased(FlashStorageStart - FlashAppSignature);
    PlaceSame(t, FlashAppSignature, FlashStorageStart, IntelHex.Erased(FlashStorageStart - FlashAppSignature), SignatureArea);
    assert t[FlashStorageStart..FlashUpdaterStart] == IntelHex.Erased(FlashUpdaterStart - FlashStorageStart);
    PlaceSame(t, FlashStorageStart, FlashUpdaterStart, IntelHex.Erased(FlashUpdaterStart - FlashStorageStart), StorageArea);
  }

  /** Processing an image a second time with the same hwid and keys
      succeeds and changes nothing. */
  lemma ProcessTwice(s: seq<byte>, hwid: int, keys: seq<seq<byte>>)
    requires |s| >= FlashUpdaterStart && AllKeySized(keys)
    requires ProcessImage(s, hwid, keys).error.None?
    ensures var t := ProcessImage(s, hwid, keys).image;
            ProcessImage(t, hwid, keys) == Outcome(t, None)
  {
    var t := ProcessImage(s, hwid, keys).image;
    ProcessLayout(s, hwid, keys);
    ProcessedIsFixed(s, t, hwid, keys);
  }

  lemma ProcessedIsFixed(s: seq<byte>, t: seq<byte>, hwid: int, keys: seq<seq<byte>>)
    requires |keys| <= 3 && 0 <= hwid < 0x10000 && AllKeySized(keys)
    requires ProcessedFrom(s, t, hwid, keys)
    ensures ProcessImage(t, hwid, keys) == Outcome(t, None)
  {
    LE16Injective(t, FlashHwid);
    PlaceSame(t, FlashHwid, FlashAppStart, LE16(hwid as u16), HwidArea);
    KeysRewrite(t, keys, 0);
    ErasedKept(t);
  }

  /** Keys already in their slots are accepted again without change. */
  lemma {:induction false} KeysRewrite(t: seq<byte>, keys: seq<seq<byte>>, i: nat)
    requires i <= |keys| <= 3 && |t| >= FlashReserved && AllKeySized(keys)
    requires forall j :: i <= j < |keys| ==> t[KeyStart(j)..KeyStart(j) + KeySize] == keys[j]
    ensures WriteKeys(t, keys, i) == Outcome(t, None)
    decreases |keys| - i
  {
    if i < |keys| {
      var lo := KeyStart(i);
      assert t[..lo] + keys[i] + t[lo + KeySize..] == t;
      KeysRewrite(t, keys, i + 1);
    }
  }

  // ---------------------------------------------------------------------
  // The image as the tools hold it: a bytearray written in place

  class FlashImage {
    var bytes: seq<byte>

    constructor (image: seq<byte>)
      ensures bytes == image
    {
      bytes := image;
    }

    /** The shared guard-then-write of every insert. */
    method Write(lo: nat, hi: nat, content: seq<byte>, area: Area) returns (err: Option<ProvisionError>)
      modifies this
      ensures Outcome(bytes, err) == Place(old(bytes), lo, hi, content, area)
    {
      var current := PySlice(bytes, lo, hi);
      var nonzero := false;
      var k := 0;
      while k < |current|
        invariant 0 <= k <= |current|
        invariant nonzero <==> !Blank(current[..k])
      {
        assert current[..k + 1] == current[..k] + [current[k]];
        if current[k] != 0 {
          nonzero := true;
        }
        k := k + 1;
      }
      assert current[..k] == current;
      if nonzero && current != content {
        return Some(NotEmpty(area));
      }
      bytes := PySliceAssign(bytes, lo, hi, content);
      err := None;
    }

    method InsertKeys(keys: seq<seq<byte>>) returns (err: Option<ProvisionError>)
      modifies this
      ensures Outcome(bytes, err) == WriteKeys(old(bytes), keys, 0)
    {
      var i := 0;
      while i < |keys|
        invariant 0 <= i <= |keys|
        invariant WriteKeys(bytes, keys, i) == WriteKeys(old(bytes), keys, 0)
      {
        var start := FlashSignatureKeys + i * KeySize;
        var end := start + KeySize;
        if end > FlashReserved {
          return Some(TooManyKeys);
        }
        err := Write(start, end, keys[i], KeyArea(i));
        if err.Some? {
          return;
        }
        i := i + 1;
      }
      err := None;
    }

    method InsertHwid(hwid: int) returns (err: Option<ProvisionError>)
      modifies this
      ensures Outcome(bytes, err) == WithHwid(old(bytes), hwid)
    {
      if !(0 <= hwid < 0x10000) {
        return Some(StructError);
      }
      err := Write(FlashHwid, FlashAppStart, LE16(hwid as u16), HwidArea);
    }

    method InsertReserved(reserved: int) returns (err: Option<ProvisionError>)
      modifies this
      ensures Outcome(bytes, err) == WithReserved(old(bytes), reserved)
    {
      if !(0 <= reserved < 0x10000) {
        return Some(StructError);
      }
      err := Write(FlashReserved, FlashHwid, LE16(reserved as u16), ReservedArea);
    }

    method InsertApplication(app: Option<seq<byte>>) returns (err: Option<ProvisionError>)
      modifies this
      ensures Outcome(bytes, err) == WithApplication(old(bytes), app)
    {
      var content := if app.Some? then app.value else IntelHex.Erased(FlashAppSignature - FlashAppStart);
      err := Write(FlashAppStart, FlashAppSignature, content, ApplicationArea);
    }

    method InsertSignature(sig: Option<seq<byte>>) returns (err: Option<ProvisionError>)
      modifies this
      ensures Outcome(bytes, err) == WithSignature(old(bytes), sig)
    {
      var content := if sig.Some? then sig.value else IntelHex.Erased(FlashStorageStart - FlashAppSignature);
      err := Write(FlashAppSignature, FlashStorageStart, content, SignatureArea);
    }

    method InsertStorage(storage: Option<seq<byte>>) returns (err: Option<ProvisionError>)
      modifies this
      ensures Outcome(bytes, err) == WithStorage(old(bytes), storage)
    {
      var content := if storage.Some? then storage.value else IntelHex.Erased(FlashUpdaterStart - FlashStorageStart);
      err := Write(FlashStorageStart, FlashUpdaterStart, content, StorageArea);
    }

    /** tools/flash.py `process`. */
    method Process(hwid: int, keys: seq<seq<byte>>) returns (err: Option<ProvisionError>)
      modifies this
      ensures Outcome(bytes, err) == ProcessImage(old(bytes), hwid, keys)
    {
      err := InsertHwid(hwid);
      if err.Some? {
        return;
      }
      err := InsertKeys(keys);
      if err.Some? {
        return;
      }
      err := InsertApplication(None);
      if err.Some? {
        return;
      }
      err := InsertSignature(None);
      if err.Some? {
        return;
      }
      err := InsertStorage(None);
    }
  }
}
