/** Protobuf varints and length-delimited fields (`decode_varint`, `decode_length_delimited`). */
module Varint {
  import opened Wrappers
  import opened Bytes

  const TWO64: nat := 0x1_0000_0000_0000_0000

  /** What a `u64` keeps. */
  function Wrap64(n: nat): nat {
    n % TWO64
  }

  datatype WireError =
    | TruncatedVarint
    | OverlongVarint
    | FieldExceedsData
    | InvalidUtf8
    | UnsupportedWireType(wireType: nat, number: nat)
    | CompressedFrame
    | TruncatedFrame
    | EmptyStream

  /** A decoded value and how many bytes it took. */
  type Read<T> = Result<(T, nat), WireError>

  /** Base-128 encoding, low group first, the top bit of a byte saying that another follows. */
  function Encode(n: nat): bytes {
    if n < 128 then [n] else [n % 128 + 128] + Encode(n / 128)
  }

  function Pow128(k: nat): (p: nat)
    ensures p >= 1
  {
    if k == 0 then 1 else 128 * Pow128(k - 1)
  }

  /** The groups at the front of `s` as one number, `k` groups having been read before; ten at most. */
  function ReadGroups(s: bytes, k: nat): Read<nat>
    decreases |s|
  {
    if s == [] then Err(TruncatedVarint)
    else if s[0] < 128 then Ok((s[0], 1))
    else if k >= 9 then Err(OverlongVarint)
    else match ReadGroups(s[1..], k + 1)
         case Err(e) => Err(e)
         case Ok((v, used)) => Ok((s[0] - 128 + 128 * v, used + 1))
  }

  /** A varint kept in a `u64`: bits above the sixty-fourth are shifted out. */
  function ReadVarint(s: bytes): (r: Read<nat>)
    ensures r.Ok? ==> 1 <= r.value.1 <= |s| && r.value.0 < TWO64
  {
    ReadGroupsUsed(s, 0);
    match ReadGroups(s, 0)
    case Err(e) => Err(e)
    case Ok((v, used)) => Ok((Wrap64(v), used))
  }

  lemma {:induction false} ReadGroupsUsed(s: bytes, k: nat)
    ensures ReadGroups(s, k).Ok? ==> 1 <= ReadGroups(s, k).value.1 <= |s|
    decreases |s|
  {
    if s != [] {
      ReadGroupsUsed(s[1..], k + 1);
    }
  }

  /** `length` bytes after a length varint; the length is checked against the data left. */
  function ReadBytes(s: bytes): (r: Read<bytes>)
    ensures r.Ok? ==> 1 <= r.value.1 <= |s|
  {
    match ReadVarint(s)
    case Err(e) => Err(e)
    case Ok((length, used)) =>
      if used + length > |s| then Err(FieldExceedsData)
      else Ok((s[used..used + length], used + length))
  }

  // ---------------------------------------------------------------- words

  /** Bitwise or. */
  function Or(a: nat, b: nat): nat {
    if a == 0 && b == 0 then 0 else 2 * Or(a / 2, b / 2) + if a % 2 == 1 || b % 2 == 1 then 1 else 0
  }

  function Pow2(k: nat): (p: nat)
    ensures p >= 1
  {
    if k == 0 then 1 else 2 * Pow2(k - 1)
  }

  /** `v << shift` in a `u64`. */
  function ShiftLeft(v: nat, shift: nat): nat {
    Wrap64(Lift(v, Pow2(shift)))
  }

  lemma {:induction false} OrZero(b: nat)
    ensures Or(0, b) == b
  {
    if b > 0 {
      OrZero(b / 2);
    }
  }

  /** Numbers without a common bit: or is addition. */
  lemma {:induction false} OrDisjoint(a: nat, m: nat, k: nat)
    requires a < Pow2(k)
    ensures Or(a, Lift(m, Pow2(k))) == a + Lift(m, Pow2(k))
  {
    var b := Lift(m, Pow2(k));
    if k == 0 {
      OrZero(b);
    } else {
      var half := Lift(m, Pow2(k - 1));
      assert b == 2 * half by { assert Pow2(k) * m == 2 * (Pow2(k - 1) * m); }
      OrDisjoint(a / 2, m, k - 1);
      assert b / 2 == half && b % 2 == 0;
      hide Lift;
      if a == 0 && b == 0 {
      } else {
        assert Or(a, b) == 2 * (a / 2 + half) + a % 2;
      }
    }
  }

  lemma {:induction false} Pow2Split(j: nat, k: nat)
    ensures Pow2(j + k) == Pow2(j) * Pow2(k)
  {
    if j > 0 {
      Pow2Split(j - 1, k);
      assert 2 * (Pow2(j - 1) * Pow2(k)) == 2 * Pow2(j - 1) * Pow2(k);
    }
  }

  lemma Pow2Word()
    ensures Pow2(64) == TWO64 && Pow2(7) == 128
  {
    assert Pow2(7) == 128 && Pow2(8) == 256;
    hide Pow2;
    Pow2Split(8, 8);
    assert Pow2(16) == 0x1_0000;
    Pow2Split(16, 16);
    assert Pow2(32) == 0x1_0000_0000;
    Pow2Split(32, 32);
  }

  lemma SameQuotient(n: nat, j: nat, r: nat, k: nat, s: nat)
    requires r < n && s < n && n * j + r == n * k + s
    ensures j == k
  {
    assert j < k ==> n * (j + 1) <= n * k;
    assert k < j ==> n * (k + 1) <= n * j;
  }

  lemma AddMultiple(r: nat, n: nat, k: nat)
    requires r < n
    ensures (r + n * k) % n == r
  {
    var x := r + n * k;
    assert x == n * (x / n) + x % n;
    SameQuotient(n, x / n, x % n, k, r);
  }

  /** `p * g` cut at a multiple of `p * q`. */
  lemma CutProduct(p: nat, q: nat, g: nat)
    requires q > 0
    ensures p * g == (p * q) * (g / q) + p * (g % q)
    ensures p * (g % q) + p <= p * q
  {
    var high, low := g / q, g % q;
    assert p * (q * high + low) == p * (q * high) + p * low;
    assert p * (q * high) == (p * q) * high;
    assert p * (low + 1) <= p * q;
  }

  lemma Remainder(a: nat, p: nat, q: nat, g: nat)
    requires a < p && q > 0
    ensures p * q > 0 && (a + p * g) % (p * q) == a + p * (g % q)
  {
    CutProduct(p, q, g);
    AddMultiple(a + p * (g % q), p * q, g / q);
  }

  /** What a `u64` keeps of a group above the bits set so far. */
  lemma WrapLift(acc: nat, p: nat, q: nat, group: nat)
    requires acc < p && q > 0 && p * q == TWO64
    ensures Wrap64(acc + Lift(group, p)) == acc + Lift(group % q, p)
  {
    Remainder(acc, p, q, group);
  }

  lemma NothingLifted(p: nat, group: nat)
    ensures Lift(0, p) == 0 && 0 + Lift(group, p) == Lift(group, p)
  {
  }

  /** A group ored in above the bits set so far is added, as a `u64` adds. */
  lemma OrIsAdd(acc: nat, group: nat, shift: nat)
    requires acc < Pow2(shift) && shift < 64
    ensures Or(Wrap64(acc), ShiftLeft(group, shift)) == Wrap64(acc + Lift(group, Pow2(shift)))
  {
    hide Pow2;
    hide Or;
    hide Lift;
    hide Wrap64;
    var p, q := Pow2(shift), Pow2(64 - shift);
    Pow2Word();
    Pow2Split(shift, 64 - shift);
    WrapLift(acc, p, q, group);
    WrapLift(0, p, q, group);
    WrapLift(acc, p, q, 0);
    NothingLifted(p, group);
    OrDisjoint(acc, group % q, shift);
  }

  // ---------------------------------------------------------------- the decoders

  /** A read at `offset` moved to positions in `data`. */
  function At<T>(r: Read<T>, offset: nat): Read<T> {
    match r
    case Err(e) => Err(e)
    case Ok((v, used)) => Ok((v, offset + used))
  }

  /** `v << shift` for `scale == 1 << shift`, before the upper bits are dropped. */
  function Lift(v: nat, scale: nat): nat {
    scale * v
  }

  /** The seven value bits of a byte. */
  function Group(b: byte): nat {
    b % 128
  }

  lemma GroupIs(b: byte)
    ensures Group(b) == (if b < 128 then b else b - 128) && Group(b) < 128
  {
  }

  /** What is still to be read, put above the groups read so far. */
  function Above(r: Read<nat>, acc: nat, scale: nat, taken: nat): Read<nat> {
    match r
    case Err(e) => Err(e)
    case Ok((v, used)) => Ok((acc + Lift(v, scale), taken + used))
  }

  lemma AboveStart(r: Read<nat>)
    ensures Above(r, 0, Pow2(0), 0) == r && Wrap64(0) == 0 < Pow2(0)
  {
  }

  lemma AboveStep(s: bytes, k: nat, acc: nat, scale: nat, taken: nat)
    requires s != [] && s[0] >= 128 && k < 9
    ensures Above(ReadGroups(s, k), acc, scale, taken) ==
            Above(ReadGroups(s[1..], k + 1), acc + Lift(s[0] - 128, scale), Lift(128, scale), taken + 1)
  {
    match ReadGroups(s[1..], k + 1)
    case Err(e) =>
    case Ok((v, used)) =>
      assert scale * (s[0] - 128 + 128 * v) == scale * (s[0] - 128) + (scale * 128) * v;
  }

  lemma GroupFits(acc: nat, scale: nat, group: nat)
    requires acc < scale && group < 128
    ensures acc + Lift(group, scale) < Lift(128, scale)
  {
    assert scale * group <= scale * 127;
  }

  lemma NextShift(acc: nat, group: nat, shift: nat)
    requires acc < Pow2(shift) && group < 128
    ensures Pow2(shift + 7) == Lift(128, Pow2(shift)) && acc + Lift(group, Pow2(shift)) < Pow2(shift + 7)
  {
    Pow2Word();
    Pow2Split(shift, 7);
    GroupFits(acc, Pow2(shift), group);
  }

  /** The three ways a group can be the last one looked at. */
  lemma GroupsEnd(s: bytes, k: nat, acc: nat, scale: nat)
    ensures s == [] ==> Above(ReadGroups(s, k), acc, scale, k) == Err(TruncatedVarint)
    ensures s != [] && s[0] < 128 ==> Above(ReadGroups(s, k), acc, scale, k) == Ok((acc + Lift(s[0], scale), k + 1))
    ensures s != [] && s[0] >= 128 && k >= 9 ==> Above(ReadGroups(s, k), acc, scale, k) == Err(OverlongVarint)
  {
  }

  /** The groups up to `offset` make up `acc`, and the rest is still to be read above them. */
  ghost predicate Decoding(data: bytes, start: nat, offset: nat, acc: nat, shift: nat)
    requires start <= offset <= |data|
  {
    && shift == 7 * (offset - start) && acc < Pow2(shift)
    && ReadGroups(data[start..], 0) ==
       Above(ReadGroups(data[offset..], offset - start), acc, Pow2(shift), offset - start)
  }

  lemma DecodingStarts(data: bytes, start: nat)
    requires start <= |data|
    ensures Decoding(data, start, start, 0, 0) && Wrap64(0) == 0
  {
    AboveStart(ReadGroups(data[start..], 0));
  }

  lemma DecodingEnds(data: bytes, start: nat, offset: nat, acc: nat, shift: nat)
    requires start <= offset <= |data| && Decoding(data, start, offset, acc, shift)
    ensures offset == |data| ==> ReadVarint(data[start..]) == Err(TruncatedVarint)
    ensures offset < |data| && data[offset] < 128 ==>
              ReadVarint(data[start..]) ==
              Ok((Wrap64(acc + Lift(Group(data[offset]), Pow2(shift))), offset + 1 - start))
    ensures offset < |data| && data[offset] >= 128 && shift + 7 >= 64 ==>
              ReadVarint(data[start..]) == Err(OverlongVarint)
  {
    hide ReadGroups;
    hide Above;
    hide Pow2;
    hide Lift;
    GroupsEnd(data[offset..], offset - start, acc, Pow2(shift));
    if offset < |data| {
      GroupIs(data[offset]);
    }
    hide Group;
  }

  lemma DecodingGoesOn(data: bytes, start: nat, offset: nat, acc: nat, shift: nat)
    requires start <= offset < |data| && Decoding(data, start, offset, acc, shift)
    requires data[offset] >= 128 && shift + 7 < 64
    ensures Decoding(data, start, offset + 1, acc + Lift(Group(data[offset]), Pow2(shift)), shift + 7)
  {
    hide ReadGroups;
    hide Above;
    hide Pow2;
    hide Lift;
    GroupIs(data[offset]);
    hide Group;
    var rest, k := data[offset..], offset - start;
    assert rest[1..] == data[offset + 1..];
    AboveStep(rest, k, acc, Pow2(shift), k);
    NextShift(acc, Group(data[offset]), shift);
  }

  lemma DecodingFits(data: bytes, start: nat, offset: nat, acc: nat, shift: nat)
    requires start <= offset <= |data| && Decoding(data, start, offset, acc, shift)
    ensures acc < Pow2(shift)
  {
  }

  /** `decode_varint`: each group is ored in at a growing shift, above the bits set so far. */
  method DecodeVarint(data: bytes, start: nat) returns (r: Read<nat>)
    requires start <= |data|
    ensures r == At(ReadVarint(data[start..]), start)
  {
    hide ReadVarint;
    hide Wrap64;
    hide Pow2;
    hide Lift;
    hide Or;
    hide ShiftLeft;
    hide Group;
    hide Decoding;
    DecodingStarts(data, start);
    var result, shift: nat, offset := 0, 0, start;
    ghost var acc: nat := 0;
    while true
      invariant start <= offset <= |data| && shift < 64
      invariant Decoding(data, start, offset, acc, shift) && result == Wrap64(acc)
      decreases |data| - offset
    {
      DecodingEnds(data, start, offset, acc, shift);
      if offset >= |data| {
        return Err(TruncatedVarint);
      }
      var byte := data[offset];
      ghost var part := Lift(Group(byte), Pow2(shift));
      DecodingFits(data, start, offset, acc, shift);
      OrIsAdd(acc, Group(byte), shift);
      result := Or(result, ShiftLeft(Group(byte), shift));
      if byte < 128 {
        return Ok((result, offset + 1));
      }
      if shift + 7 >= 64 {
        return Err(OverlongVarint);
      }
      DecodingGoesOn(data, start, offset, acc, shift);
      acc, shift, offset := acc + part, shift + 7, offset + 1;
    }
  }

  /** `decode_length_delimited`. */
  method DecodeLengthDelimited(data: bytes, start: nat) returns (r: Read<bytes>)
    requires start <= |data|
    ensures r == At(ReadBytes(data[start..]), start)
  {
    var header := DecodeVarint(data, start);
    if header.Err? {
      return Err(header.error);
    }
    var (length, offset) := header.value;
    if offset + length > |data| {
      return Err(FieldExceedsData);
    }
    assert data[start..][offset - start..offset - start + length] == data[offset..offset + length];
    r := Ok((data[offset..offset + length], offset + length));
  }

  // ---------------------------------------------------------------- where a varint ends

  /** The first `n` bytes all say that another follows. */
  ghost predicate GoesOn(s: bytes, n: nat) {
    n <= |s| && forall i :: 0 <= i < n ==> s[i] >= 128
  }

  lemma {:induction false} GroupsEndAt(s: bytes, k: nat)
    requires k <= 9
    ensures match ReadGroups(s, k)
            case Ok((_, used)) => 1 <= used <= |s| && k + used <= 10 && GoesOn(s, used - 1) && s[used - 1] < 128
            case Err(e) => if e == TruncatedVarint then k + |s| < 10 && GoesOn(s, |s|)
                           else e == OverlongVarint && k + |s| >= 10 && GoesOn(s, 10 - k)
    decreases |s|
  {
    if s != [] && s[0] >= 128 && k < 9 {
      GroupsEndAt(s[1..], k + 1);
      assert forall i :: 0 <= i < |s| - 1 ==> s[1..][i] == s[i + 1];
      assert forall n: nat :: GoesOn(s[1..], n) ==> GoesOn(s, n + 1) by {
        forall n: nat | GoesOn(s[1..], n) ensures GoesOn(s, n + 1) {
          assert forall i :: 0 < i < n + 1 ==> s[i] == s[1..][i - 1];
        }
      }
    }
  }

  /**
   A varint ends at the first byte below 128, which is among the first ten; ten bytes that all
   go on are too long, and fewer that all go on are cut off.
   */
  lemma {:induction false} VarintEndsAt(s: bytes, n: nat)
    requires GoesOn(s, n) && n <= 10
    ensures n < 10 && n < |s| && s[n] < 128 ==> ReadVarint(s).Ok? && ReadVarint(s).value.1 == n + 1
    ensures n < 10 && n == |s| ==> ReadVarint(s) == Err(TruncatedVarint)
    ensures n == 10 ==> ReadVarint(s) == Err(OverlongVarint)
  {
    GroupsEndAt(s, 0);
  }

  // ---------------------------------------------------------------- decoding undoes encoding

  lemma {:induction false} ReadEncoded(n: nat, k: nat, rest: bytes)
    requires k <= 9 && n < Pow128(10 - k)
    ensures ReadGroups(Encode(n) + rest, k) == Ok((n, |Encode(n)|))
    decreases n
  {
    if n >= 128 {
      assert Pow128(10 - k) == 128 * Pow128(9 - k);
      ReadEncoded(n / 128, k + 1, rest);
      assert (Encode(n) + rest)[1..] == Encode(n / 128) + rest;
    }
  }

  lemma {:induction false} EncodeLength(n: nat, m: nat)
    requires m >= 1 && n < Pow128(m)
    ensures 1 <= |Encode(n)| <= m
    decreases n
  {
    if n >= 128 {
      assert m > 1;
      EncodeLength(n / 128, m - 1);
    }
  }

  lemma TenGroupsHold64Bits()
    ensures TWO64 < Pow128(10)
  {
    assert Pow128(2) == 16384;
    assert Pow128(4) == 128 * 128 * Pow128(2);
    assert Pow128(6) == 128 * 128 * Pow128(4);
    assert Pow128(8) == 128 * 128 * Pow128(6);
    assert Pow128(10) == 128 * 128 * Pow128(8);
  }

  /** Decoding inverts encoding for every 64-bit number, whatever follows, in at most ten bytes. */
  lemma VarintRoundTrip(n: nat, rest: bytes)
    requires n < TWO64
    ensures ReadVarint(Encode(n) + rest) == Ok((n, |Encode(n)|))
    ensures 1 <= |Encode(n)| <= 10
  {
    TenGroupsHold64Bits();
    ReadEncoded(n, 0, rest);
    EncodeLength(n, 10);
  }

  /** A length is believed exactly when that many bytes follow it. */
  lemma LengthChecked(n: nat, rest: bytes)
    requires n < TWO64
    ensures var s := Encode(n) + rest;
            if n <= |rest| then ReadBytes(s) == Ok((rest[..n], |Encode(n)| + n))
            else ReadBytes(s) == Err(FieldExceedsData)
  {
    var head := Encode(n);
    VarintRoundTrip(n, rest);
    if n <= |rest| {
      assert (head + rest)[|head|..|head| + n] == rest[..n];
    }
  }

  lemma BytesRoundTrip(payload: bytes, rest: bytes)
    requires |payload| < TWO64
    ensures ReadBytes(Encode(|payload|) + payload + rest) == Ok((payload, |Encode(|payload|)| + |payload|))
  {
    var head := Encode(|payload|);
    VarintRoundTrip(|payload|, payload + rest);
    assert head + payload + rest == head + (payload + rest);
    assert (head + payload + rest)[|head|..|head| + |payload|] == payload;
  }
}
