/** gRPC framing and the fetch that uses it (`grpc_encode_message`, `parse_grpc_frames`, `fetch_x509_svid_response`). */
module GrpcStream {
  import opened Wrappers
  import opened Bytes
  import opened Varint
  import opened SvidMessage

  function Be16(n: nat): bytes
    requires n < 0x1_0000
  {
    [n / 256, n % 256]
  }

  function Be32(n: nat): bytes
    requires n < TWO32
  {
    Be16(n / 0x1_0000) + Be16(n % 0x1_0000)
  }

  function FromBe32(a: byte, b: byte, c: byte, d: byte): nat {
    0x1_0000 * (256 * a + b) + (256 * c + d)
  }

  /** Compression flag 0, then the length. */
  function Header(n: nat): bytes
    requires n < TWO32
  {
    [0] + Be32(n)
  }

  function LengthField(s: bytes): nat
    requires |s| >= 5
  {
    FromBe32(s[1], s[2], s[3], s[4])
  }

  /** `as u32`. */
  function Low32(n: nat): (r: nat)
    ensures r < TWO32
    ensures n < TWO32 ==> r == n
  {
    n % TWO32
  }

  /** An uncompressed frame and what follows it; the length field keeps 32 bits of the payload's length. */
  function Frame(payload: bytes, rest: bytes): bytes {
    Header(Low32(|payload|)) + (payload + rest)
  }

  function Frames(payloads: seq<bytes>, tail: bytes): bytes {
    if payloads == [] then tail else Frame(payloads[0], Frames(payloads[1..], tail))
  }

  /** The frame at the front of `s` and the bytes it takes. */
  function FirstFrame(s: bytes): (r: Read<bytes>)
    requires |s| >= 5
    ensures r.Ok? ==> 5 <= r.value.1 <= |s|
  {
    if s[0] != 0 then Err(CompressedFrame)
    else if 5 + LengthField(s) > |s| then Err(TruncatedFrame)
    else Ok((s[5..5 + LengthField(s)], 5 + LengthField(s)))
  }

  /** All frames of `s`; fewer than five bytes at the end are ignored. */
  function ReadFrames(s: bytes): Decoded<seq<bytes>>
    decreases |s|
  {
    if |s| < 5 then Ok([])
    else match FirstFrame(s)
         case Err(e) => Err(e)
         case Ok((frame, used)) => Ahead([frame], ReadFrames(s[used..]))
  }

  function Ahead(found: seq<bytes>, r: Decoded<seq<bytes>>): Decoded<seq<bytes>> {
    match r
    case Err(e) => Err(e)
    case Ok(frames) => Ok(found + frames)
  }

  /** `grpc_encode_message`. */
  method GrpcEncodeMessage(payload: bytes) returns (frame: bytes)
    ensures frame == Frame(payload, [])
  {
    frame := [0];
    frame := frame + Be32(Low32(|payload|));
    frame := frame + payload;
    assert payload + [] == payload;
  }

  lemma AheadOfNothing(r: Decoded<seq<bytes>>)
    ensures Ahead([], r) == r
  {
    assert r.Ok? ==> [] + r.value == r.value;
  }

  lemma AheadTwice(found: seq<bytes>, more: seq<bytes>, r: Decoded<seq<bytes>>)
    ensures Ahead(found, Ahead(more, r)) == Ahead(found + more, r)
  {
    assert r.Ok? ==> found + (more + r.value) == found + more + r.value;
  }

  /** One round of the parser's loop. */
  method DecodeFrame(data: bytes, start: nat) returns (r: Read<bytes>)
    requires start + 5 <= |data|
    ensures r == At(FirstFrame(data[start..]), start)
  {
    if data[start] != 0 {
      return Err(CompressedFrame);
    }
    var length := FromBe32(data[start + 1], data[start + 2], data[start + 3], data[start + 4]);
    var offset := start + 5;
    if offset + length > |data| {
      return Err(TruncatedFrame);
    }
    assert data[start..][5..5 + length] == data[offset..offset + length];
    r := Ok((data[offset..offset + length], offset + length));
  }

  /** `parse_grpc_frames`. */
  method ParseGrpcFrames(data: bytes) returns (r: Decoded<seq<bytes>>)
    ensures r == ReadFrames(data)
  {
    hide FirstFrame;
    var frames: seq<bytes> := [];
    var offset := 0;
    assert data[0..] == data;
    AheadOfNothing(ReadFrames(data));
    while offset + 5 <= |data|
      invariant 0 <= offset <= |data|
      invariant ReadFrames(data) == Ahead(frames, ReadFrames(data[offset..]))
      decreases |data| - offset
    {
      var frame := DecodeFrame(data, offset);
      if frame.Err? {
        return Err(frame.error);
      }
      var (payload, next) := frame.value;
      assert data[offset..][next - offset..] == data[next..];
      AheadTwice(frames, [payload], ReadFrames(data[next..]));
      frames, offset := frames + [payload], next;
    }
    assert frames + [] == frames;
    r := Ok(frames);
  }

  // ---------------------------------------------------------------- framing both ways

  lemma HeaderRoundTrip(n: nat, rest: bytes)
    requires n < TWO32
    ensures |Header(n)| == 5 && Header(n)[0] == 0 && LengthField(Header(n) + rest) == n
  {
    var hi, lo := n / 0x1_0000, n % 0x1_0000;
    assert Header(n) == [0, hi / 256, hi % 256, lo / 256, lo % 256];
  }

  /** The length stands in big-endian order behind the flag. */
  lemma HeaderIs(s: bytes)
    requires |s| >= 5 && s[0] == 0
    ensures LengthField(s) == 0x100_0000 * s[1] as int + 0x1_0000 * s[2] as int + 0x100 * s[3] as int + s[4] as int
    ensures LengthField(s) < TWO32 && Header(LengthField(s)) == s[..5]
  {
    var n, hi: int, lo: int := LengthField(s), 256 * (s[1] as int) + s[2] as int, 256 * (s[3] as int) + s[4] as int;
    assert n / 0x1_0000 == hi && n % 0x1_0000 == lo;
    assert Be16(hi) == [s[1], s[2]] && Be16(lo) == [s[3], s[4]];
  }

  lemma Cut(h: bytes, p: bytes, rest: bytes)
    ensures var s := h + (p + rest); s[|h|..|h| + |p|] == p && s[|h| + |p|..] == rest && s[..|h|] == h
  {
  }

  lemma ReadFrame(payload: bytes, rest: bytes)
    requires |payload| < TWO32
    ensures ReadFrames(Frame(payload, rest)) == Ahead([payload], ReadFrames(rest))
  {
    var n := |payload|;
    var s := Header(n) + (payload + rest);
    HeaderRoundTrip(n, payload + rest);
    Cut(Header(n), payload, rest);
    hide Low32;
    hide Header;
    hide LengthField;
    assert FirstFrame(s) == Ok((payload, 5 + n));
  }

  /** Frames written one after another are read back, a tail of fewer than five bytes being ignored. */
  lemma {:induction false} FramesRoundTrip(payloads: seq<bytes>, tail: bytes)
    requires forall i :: 0 <= i < |payloads| ==> |payloads[i]| < TWO32
    requires |tail| < 5
    ensures ReadFrames(Frames(payloads, tail)) == Ok(payloads)
    decreases |payloads|
  {
    hide Frame;
    if payloads != [] {
      ReadFrame(payloads[0], Frames(payloads[1..], tail));
      FramesRoundTrip(payloads[1..], tail);
      assert [payloads[0]] + payloads[1..] == payloads;
    }
  }

  lemma FrameIs(s: bytes)
    requires |s| >= 5 && s[0] == 0 && 5 + LengthField(s) <= |s|
    ensures s == Frame(s[5..5 + LengthField(s)], s[5 + LengthField(s)..])
  {
    var n := LengthField(s);
    HeaderIs(s);
    hide Header;
    hide LengthField;
    hide Low32;
    assert Low32(n) == n;
    assert s[5..5 + n] + s[5 + n..] == s[5..];
    assert s[..5] + s[5..] == s;
  }

  /** And nothing else is accepted: data that parses is its frames written out, then such a tail. */
  lemma {:induction false} ParsedIsFramed(s: bytes) returns (tail: bytes)
    requires ReadFrames(s).Ok?
    ensures |tail| < 5 && s == Frames(ReadFrames(s).value, tail)
    decreases |s|
  {
    hide Frame;
    hide LengthField;
    if |s| < 5 {
      tail := s;
    } else {
      var n := LengthField(s);
      var payload, rest := s[5..5 + n], s[5 + n..];
      tail := ParsedIsFramed(rest);
      FrameIs(s);
      var found := ReadFrames(rest).value;
      assert ([payload] + found)[1..] == found;
    }
  }

  /** Frames up to one that is compressed or cut off: the error is that frame's. */
  lemma {:induction false} BadFrame(payloads: seq<bytes>, tail: bytes)
    requires forall i :: 0 <= i < |payloads| ==> |payloads[i]| < TWO32
    requires |tail| >= 5
    ensures tail[0] != 0 ==> ReadFrames(Frames(payloads, tail)) == Err(CompressedFrame)
    ensures tail[0] == 0 && 5 + LengthField(tail) > |tail| ==>
              ReadFrames(Frames(payloads, tail)) == Err(TruncatedFrame)
    decreases |payloads|
  {
    hide Frame;
    if payloads != [] {
      ReadFrame(payloads[0], Frames(payloads[1..], tail));
      BadFrame(payloads[1..], tail);
    }
  }

  // ---------------------------------------------------------------- end to end

  function FirstNonEmpty(frames: seq<bytes>): Option<bytes> {
    if frames == [] then None else if frames[0] != [] then Some(frames[0]) else FirstNonEmpty(frames[1..])
  }

  /** What a client gets from a response body: the first non-empty frame, decoded. */
  function Fetched(utf8: Utf8, body: bytes): Decoded<seq<Svid>> {
    match ReadFrames(body)
    case Err(e) => Err(e)
    case Ok(frames) =>
      match FirstNonEmpty(frames)
      case None => Err(EmptyStream)
      case Some(message) => ReadResponse(utf8, message, [])
  }

  method FetchX509SvidResponse(utf8: Utf8, body: bytes) returns (r: Decoded<seq<Svid>>)
    ensures r == Fetched(utf8, body)
  {
    var frames := ParseGrpcFrames(body);
    if frames.Err? {
      return Err(frames.error);
    }
    var message := FirstNonEmpty(frames.value);
    if message.None? {
      return Err(EmptyStream);
    }
    r := DecodeX509SvidResponse(utf8, message.value);
  }

  /** A stream of empty frames, or of none, is an error and never an empty list. */
  lemma {:induction false} NothingFetched(utf8: Utf8, frames: seq<bytes>, tail: bytes)
    requires (forall i :: 0 <= i < |frames| ==> frames[i] == []) && |tail| < 5
    ensures Fetched(utf8, Frames(frames, tail)) == Err(EmptyStream)
  {
    FramesRoundTrip(frames, tail);
    NoneNonEmpty(frames);
  }

  lemma {:induction false} NoneNonEmpty(frames: seq<bytes>)
    requires forall i :: 0 <= i < |frames| ==> frames[i] == []
    ensures FirstNonEmpty(frames) == None
    decreases |frames|
  {
    if frames != [] {
      NoneNonEmpty(frames[1..]);
    }
  }

  predicate KnownField(f: Field) {
    f.BytesField? && 1 <= f.number % TWO32 <= 5
  }

  /** The value a record has for a field number. */
  function Value(r: Svid, k: nat): bytes {
    if k == 1 then r.spiffeId else if k == 2 then r.x509Svid else if k == 3 then r.x509SvidKey
    else if k == 4 then r.bundle else r.hint
  }

  predicate Occurs(fs: seq<Field>, k: nat) {
    exists i :: 0 <= i < |fs| && KnownField(fs[i]) && fs[i].number % TWO32 == k
  }

  /** Each known field, wherever it stands, has the record's value for its number. */
  predicate Agrees(fs: seq<Field>, r: Svid) {
    forall i :: 0 <= i < |fs| && KnownField(fs[i]) ==> fs[i].payload == Value(r, fs[i].number % TWO32)
  }

  /** A writing of the record: in any order, with or without its empty fields, other fields anywhere. */
  predicate Writes(fs: seq<Field>, r: Svid) {
    Agrees(fs, r) && forall k :: 1 <= k <= 5 && Value(r, k) != [] ==> Occurs(fs, k)
  }

  predicate Readable(utf8: Utf8, r: Svid) {
    utf8(r.spiffeId) && utf8(r.hint)
  }

  /** `es` is a response that carries the records `rs`, with unknown fields between and inside them. */
  predicate Carries(es: seq<Entry>, rs: seq<Svid>) {
    if es == [] then rs == []
    else if es[0].Unknown? then Carries(es[1..], rs)
    else rs != [] && Writes(es[0].fields, rs[0]) && Carries(es[1..], rs[1..])
  }

  function Told(fs: seq<Field>, k: nat, svid: Svid, r: Svid): bytes {
    if Occurs(fs, k) then Value(r, k) else Value(svid, k)
  }

  lemma OccursFirst(fs: seq<Field>, k: nat)
    requires fs != []
    ensures Occurs(fs, k) <==> (KnownField(fs[0]) && fs[0].number % TWO32 == k) || Occurs(fs[1..], k)
  {
    hide KnownField;
    if i :| 0 <= i < |fs[1..]| && KnownField(fs[1..][i]) && fs[1..][i].number % TWO32 == k {
      assert fs[i + 1] == fs[1..][i];
    }
    if i :| 0 < i < |fs| && KnownField(fs[i]) && fs[i].number % TWO32 == k {
      assert fs[1..][i - 1] == fs[i];
    }
  }

  lemma ToldFirst(fs: seq<Field>, k: nat, svid: Svid, svid': Svid, r: Svid)
    requires fs != [] && 1 <= k <= 5
    requires Value(svid', k) == if KnownField(fs[0]) && fs[0].number % TWO32 == k then Value(r, k) else Value(svid, k)
    ensures Told(fs[1..], k, svid', r) == Told(fs, k, svid, r)
  {
    OccursFirst(fs, k);
    hide Occurs;
    hide KnownField;
  }

  /** Fields that agree with a record set it, number by number. */
  lemma {:induction false} ToldRecord(utf8: Utf8, fs: seq<Field>, svid: Svid, r: Svid)
    requires Agrees(fs, r) && Readable(utf8, r)
    ensures RecordOf(utf8, fs, svid) ==
            Ok(Svid(Told(fs, 1, svid, r), Told(fs, 2, svid, r), Told(fs, 3, svid, r),
                    Told(fs, 4, svid, r), Told(fs, 5, svid, r)))
    decreases |fs|
  {
    if fs != [] {
      var rest := fs[1..];
      forall i | 0 <= i < |rest| && KnownField(rest[i]) ensures rest[i].payload == Value(r, rest[i].number % TWO32) {
        assert rest[i] == fs[i + 1];
      }
      var next := if KnownField(fs[0]) then SetField(utf8, svid, fs[0].number % TWO32, fs[0].payload).value else svid;
      assert RecordOf(utf8, fs, svid) == RecordOf(utf8, rest, next);
      assert forall k :: 1 <= k <= 5 ==>
          Value(next, k) == if KnownField(fs[0]) && fs[0].number % TWO32 == k then Value(r, k) else Value(svid, k);
      ToldRecord(utf8, rest, next, r);
      hide RecordOf;
      hide Told;
      hide KnownField;
      hide Agrees;
      ToldFirst(fs, 1, svid, next, r);
      ToldFirst(fs, 2, svid, next, r);
      ToldFirst(fs, 3, svid, next, r);
      ToldFirst(fs, 4, svid, next, r);
      ToldFirst(fs, 5, svid, next, r);
    }
  }

  /** Every writing of a record, as any encoder may choose it, reads back as the record. */
  lemma RecordOfWriting(utf8: Utf8, fs: seq<Field>, r: Svid)
    requires Writes(fs, r) && Readable(utf8, r)
    ensures RecordOf(utf8, fs, EMPTY_SVID) == Ok(r)
  {
    ToldRecord(utf8, fs, EMPTY_SVID, r);
    hide Occurs;
    assert forall k :: 1 <= k <= 5 ==> Told(fs, k, EMPTY_SVID, r) == Value(r, k);
  }

  /** A text field that is not UTF-8. */
  predicate Garbled(utf8: Utf8, f: Field) {
    f.BytesField? && (f.number % 0x1_0000_0000 == 1 || f.number % 0x1_0000_0000 == 5) && !utf8(f.payload)
  }

  /** A record is refused exactly for a SPIFFE id or hint that is not UTF-8, wherever it stands. */
  lemma {:induction false} RecordRefusedIff(utf8: Utf8, fs: seq<Field>, svid: Svid)
    ensures RecordOf(utf8, fs, svid).Err? <==> exists i :: 0 <= i < |fs| && Garbled(utf8, fs[i])
    ensures RecordOf(utf8, fs, svid).Err? ==> RecordOf(utf8, fs, svid) == Err(InvalidUtf8)
    decreases |fs|
  {
    if fs != [] {
      var rest := fs[1..];
      assert forall i :: 0 <= i < |rest| ==> rest[i] == fs[i + 1];
      assert (exists i :: 0 <= i < |fs| && Garbled(utf8, fs[i])) <==>
             Garbled(utf8, fs[0]) || exists i :: 0 <= i < |rest| && Garbled(utf8, rest[i]) by {
        if i :| 0 < i < |fs| && Garbled(utf8, fs[i]) {
          assert rest[i - 1] == fs[i];
        }
      }
      if fs[0].VarintField? {
        RecordRefusedIff(utf8, rest, svid);
      } else if !Garbled(utf8, fs[0]) {
        RecordRefusedIff(utf8, rest, SetField(utf8, svid, fs[0].number % TWO32, fs[0].payload).value);
      }
    }
  }

  lemma {:induction false} CarriedRecords(utf8: Utf8, es: seq<Entry>, rs: seq<Svid>, before: seq<Svid>)
    requires Carries(es, rs) && forall i :: 0 <= i < |rs| ==> Readable(utf8, rs[i])
    ensures RecordsOf(utf8, es, before) == Ok(before + rs)
    decreases |es|
  {
    if es == [] {
      assert before + rs == before;
    } else if es[0].Unknown? {
      CarriedRecords(utf8, es[1..], rs, before);
    } else {
      RecordOfWriting(utf8, es[0].fields, rs[0]);
      CarriedRecords(utf8, es[1..], rs[1..], before + [rs[0]]);
      assert before + [rs[0]] + rs[1..] == before + rs;
    }
  }

  function EmptyFrames(n: nat, more: seq<bytes>): seq<bytes> {
    if n == 0 then more else [[]] + EmptyFrames(n - 1, more)
  }

  lemma {:induction false} SkipEmptyFrames(n: nat, message: bytes, more: seq<bytes>)
    requires message != []
    requires |message| < TWO32 && forall i :: 0 <= i < |more| ==> |more[i]| < TWO32
    ensures FirstNonEmpty(EmptyFrames(n, [message] + more)) == Some(message)
    ensures forall i :: 0 <= i < |EmptyFrames(n, [message] + more)| ==> |EmptyFrames(n, [message] + more)[i]| < TWO32
    decreases n
  {
    if n > 0 {
      SkipEmptyFrames(n - 1, message, more);
    }
  }

  /**
   End to end: any non-empty list of SVID records, each written with its fields in any order,
   empty ones present or not, and unknown fields anywhere, framed behind any number of empty
   frames and before anything else, is fetched as that list.
   */
  lemma FetchRoundTrip(utf8: Utf8, es: seq<Entry>, rs: seq<Svid>, empties: nat, more: seq<bytes>, tail: bytes)
    requires rs != [] && Carries(es, rs) && forall i :: 0 <= i < |rs| ==> Readable(utf8, rs[i])
    requires forall i :: 0 <= i < |es| ==> WellFormed(es[i])
    requires |EncodeResponse(es)| < TWO32 && |tail| < 5
    requires forall i :: 0 <= i < |more| ==> |more[i]| < TWO32
    ensures Fetched(utf8, Frames(EmptyFrames(empties, [EncodeResponse(es)] + more), tail)) == Ok(rs)
  {
    hide EncodeField;
    hide ReadResponse;
    hide RecordsOf;
    hide ReadFrames;
    hide Frames;
    var message := EncodeResponse(es);
    ReadEncodedResponse(utf8, es, []);
    CarriedRecords(utf8, es, rs, []);
    assert [] + rs == rs;
    assert message != [] by {
      ReadEncodedEntry(utf8, es[0], [], []);
    }
    SkipEmptyFrames(empties, message, more);
    FramesRoundTrip(EmptyFrames(empties, [message] + more), tail);
  }
}
