/** The SPIFFE Workload API response (`decode_x509_svid_response`). Strings are kept as their UTF-8 bytes. */
module SvidMessage {
  import opened Wrappers
  import opened Bytes
  import opened Varint

  const TWO32: nat := 0x1_0000_0000

  datatype Svid = Svid(spiffeId: bytes, x509Svid: bytes, x509SvidKey: bytes, bundle: bytes, hint: bytes)

  const EMPTY_SVID := Svid([], [], [], [], [])

  /** `String::from_utf8` known by the byte strings it accepts. */
  type Utf8 = bytes -> bool

  type Decoded<T> = Result<T, WireError>

  function WireType(tag: nat): nat {
    tag % 8
  }

  /** `(tag >> 3) as u32`: a field number keeps its low 32 bits. */
  function Number(tag: nat): nat {
    tag / 8 % TWO32
  }

  // ---------------------------------------------------------------- reading, as functions of the bytes left

  /** The effect of one length-delimited field of an SVID record; a later field of the same number wins. */
  function SetField(utf8: Utf8, svid: Svid, number: nat, value: bytes): Decoded<Svid> {
    if number == 1 then (if utf8(value) then Ok(svid.(spiffeId := value)) else Err(InvalidUtf8))
    else if number == 2 then Ok(svid.(x509Svid := value))
    else if number == 3 then Ok(svid.(x509SvidKey := value))
    else if number == 4 then Ok(svid.(bundle := value))
    else if number == 5 then (if utf8(value) then Ok(svid.(hint := value)) else Err(InvalidUtf8))
    else Ok(svid)
  }

  /** One field of an SVID record at the front of `s`. */
  function ReadSvidField(utf8: Utf8, s: bytes, svid: Svid): (r: Read<Svid>)
    ensures r.Ok? ==> 1 <= r.value.1 <= |s|
  {
    match ReadVarint(s)
    case Err(e) => Err(e)
    case Ok((tag, used)) =>
      if WireType(tag) == 0 then
        match ReadVarint(s[used..])
        case Err(e) => Err(e)
        case Ok((_, more)) => Ok((svid, used + more))
      else if WireType(tag) == 2 then
        match ReadBytes(s[used..])
        case Err(e) => Err(e)
        case Ok((value, more)) =>
          match SetField(utf8, svid, Number(tag), value)
          case Err(e) => Err(e)
          case Ok(svid') => Ok((svid', used + more))
      else Err(UnsupportedWireType(WireType(tag), Number(tag)))
  }

  function ReadSvid(utf8: Utf8, s: bytes, svid: Svid): Decoded<Svid>
    decreases |s|
  {
    if s == [] then Ok(svid)
    else match ReadSvidField(utf8, s, svid)
         case Err(e) => Err(e)
         case Ok((svid', used)) => ReadSvid(utf8, s[used..], svid')
  }

  /** The records added by one length-delimited field of the response. */
  function AddRecord(utf8: Utf8, svids: seq<Svid>, number: nat, value: bytes): Decoded<seq<Svid>> {
    if number != 1 then Ok(svids)
    else match ReadSvid(utf8, value, EMPTY_SVID)
         case Err(e) => Err(e)
         case Ok(svid) => Ok(svids + [svid])
  }

  /** One field of the response at the front of `s`. Wire types 1 and 5 are skipped as length-delimited. */
  function ReadField(utf8: Utf8, s: bytes, svids: seq<Svid>): (r: Read<seq<Svid>>)
    ensures r.Ok? ==> 1 <= r.value.1 <= |s|
  {
    match ReadVarint(s)
    case Err(e) => Err(e)
    case Ok((tag, used)) =>
      var t := WireType(tag);
      if t == 0 then
        match ReadVarint(s[used..])
        case Err(e) => Err(e)
        case Ok((_, more)) => Ok((svids, used + more))
      else if t == 1 || t == 2 || t == 5 then
        match ReadBytes(s[used..])
        case Err(e) => Err(e)
        case Ok((value, more)) =>
          if t != 2 then Ok((svids, used + more))
          else match AddRecord(utf8, svids, Number(tag), value)
               case Err(e) => Err(e)
               case Ok(svids') => Ok((svids', used + more))
      else Err(UnsupportedWireType(t, Number(tag)))
  }

  function ReadResponse(utf8: Utf8, s: bytes, svids: seq<Svid>): Decoded<seq<Svid>>
    decreases |s|
  {
    if s == [] then Ok(svids)
    else match ReadField(utf8, s, svids)
         case Err(e) => Err(e)
         case Ok((svids', used)) => ReadResponse(utf8, s[used..], svids')
  }

  // ---------------------------------------------------------------- the decoder

  /** One round of the inner loop. */
  method DecodeSvidField(utf8: Utf8, data: bytes, start: nat, svid: Svid) returns (r: Read<Svid>)
    requires start <= |data|
    ensures r == At(ReadSvidField(utf8, data[start..], svid), start)
  {
    var head := DecodeVarint(data, start);
    if head.Err? {
      return Err(head.error);
    }
    var (tag, inner) := head.value;
    assert data[start..][inner - start..] == data[inner..];
    if WireType(tag) == 0 {
      var skipped := DecodeVarint(data, inner);
      return if skipped.Err? then Err(skipped.error) else Ok((svid, skipped.value.1));
    } else if WireType(tag) == 2 {
      var field := DecodeLengthDelimited(data, inner);
      if field.Err? {
        return Err(field.error);
      }
      var updated := SetField(utf8, svid, Number(tag), field.value.0);
      return if updated.Err? then Err(updated.error) else Ok((updated.value, field.value.1));
    }
    return Err(UnsupportedWireType(WireType(tag), Number(tag)));
  }

  /** The inner loop: the fields of one SVID record. */
  method DecodeSvid(utf8: Utf8, value: bytes) returns (r: Decoded<Svid>)
    ensures r == ReadSvid(utf8, value, EMPTY_SVID)
  {
    hide ReadSvidField;
    var inner := 0;
    var svid := EMPTY_SVID;
    assert value[0..] == value;
    while inner < |value|
      invariant 0 <= inner <= |value|
      invariant ReadSvid(utf8, value, EMPTY_SVID) == ReadSvid(utf8, value[inner..], svid)
    {
      var field := DecodeSvidField(utf8, value, inner, svid);
      if field.Err? {
        return Err(field.error);
      }
      assert value[inner..][field.value.1 - inner..] == value[field.value.1..];
      svid, inner := field.value.0, field.value.1;
    }
    r := Ok(svid);
  }

  /** One round of the outer loop. */
  method DecodeField(utf8: Utf8, data: bytes, start: nat, svids: seq<Svid>) returns (r: Read<seq<Svid>>)
    requires start <= |data|
    ensures r == At(ReadField(utf8, data[start..], svids), start)
  {
    var head := DecodeVarint(data, start);
    if head.Err? {
      return Err(head.error);
    }
    var (tag, offset) := head.value;
    assert data[start..][offset - start..] == data[offset..];
    var wireType := WireType(tag);
    if wireType == 0 {
      var skipped := DecodeVarint(data, offset);
      return if skipped.Err? then Err(skipped.error) else Ok((svids, skipped.value.1));
    } else if wireType == 1 || wireType == 2 || wireType == 5 {
      var field := DecodeLengthDelimited(data, offset);
      if field.Err? {
        return Err(field.error);
      }
      if wireType == 2 && Number(tag) == 1 {
        var svid := DecodeSvid(utf8, field.value.0);
        return if svid.Err? then Err(svid.error) else Ok((svids + [svid.value], field.value.1));
      }
      return Ok((svids, field.value.1));
    }
    return Err(UnsupportedWireType(wireType, Number(tag)));
  }

  /** `decode_x509_svid_response`. */
  method DecodeX509SvidResponse(utf8: Utf8, data: bytes) returns (r: Decoded<seq<Svid>>)
    ensures r == ReadResponse(utf8, data, [])
  {
    hide ReadField;
    var offset := 0;
    var svids: seq<Svid> := [];
    assert data[0..] == data;
    while offset < |data|
      invariant 0 <= offset <= |data|
      invariant ReadResponse(utf8, data, []) == ReadResponse(utf8, data[offset..], svids)
    {
      var field := DecodeField(utf8, data, offset, svids);
      if field.Err? {
        return Err(field.error);
      }
      assert data[offset..][field.value.1 - offset..] == data[field.value.1..];
      svids, offset := field.value.0, field.value.1;
    }
    r := Ok(svids);
  }

  // ---------------------------------------------------------------- encoding

  /** A protobuf field of wire type 0 or 2. */
  datatype Field = VarintField(number: nat, value: nat) | BytesField(number: nat, payload: bytes)

  predicate Encodable(f: Field) {
    8 * f.number + 2 < TWO64 && (if f.VarintField? then f.value < TWO64 else |f.payload| < TWO64)
  }

  function EncodeField(f: Field): bytes {
    match f
    case VarintField(number, value) => Encode(8 * number) + Encode(value)
    case BytesField(number, payload) => Encode(8 * number + 2) + (Encode(|payload|) + payload)
  }

  function EncodeFields(fs: seq<Field>): bytes {
    if fs == [] then [] else EncodeField(fs[0]) + EncodeFields(fs[1..])
  }

  predicate AllEncodable(fs: seq<Field>) {
    forall i :: 0 <= i < |fs| ==> Encodable(fs[i])
  }

  /** What a record's fields say, in whatever order and mixture they come. */
  function RecordOf(utf8: Utf8, fs: seq<Field>, svid: Svid): Decoded<Svid> {
    if fs == [] then Ok(svid)
    else if fs[0].VarintField? then RecordOf(utf8, fs[1..], svid)
    else match SetField(utf8, svid, fs[0].number % TWO32, fs[0].payload)
         case Err(e) => Err(e)
         case Ok(svid') => RecordOf(utf8, fs[1..], svid')
  }

  /** A field of the response: a record under field number 1, or a field that is no record. */
  datatype Entry = Record(number: nat, fields: seq<Field>) | Unknown(field: Field)

  function EntryField(e: Entry): Field {
    match e
    case Record(number, fields) => BytesField(number, EncodeFields(fields))
    case Unknown(field) => field
  }

  predicate WellFormed(e: Entry) {
    && Encodable(EntryField(e))
    && match e
       case Record(number, fields) => number % TWO32 == 1 && AllEncodable(fields)
       case Unknown(field) => field.VarintField? || field.number % TWO32 != 1
  }

  function EncodeResponse(es: seq<Entry>): bytes {
    if es == [] then [] else EncodeField(EntryField(es[0])) + EncodeResponse(es[1..])
  }

  /** The records of a response in order, after those already found. */
  function RecordsOf(utf8: Utf8, es: seq<Entry>, svids: seq<Svid>): Decoded<seq<Svid>> {
    if es == [] then Ok(svids)
    else if es[0].Unknown? then RecordsOf(utf8, es[1..], svids)
    else match RecordOf(utf8, es[0].fields, EMPTY_SVID)
         case Err(e) => Err(e)
         case Ok(svid) => RecordsOf(utf8, es[1..], svids + [svid])
  }

  // ---------------------------------------------------------------- decoding undoes encoding

  /** Reading an encoded field's tag gives its wire type and its number's low 32 bits. */
  lemma TagRoundTrip(f: Field, rest: bytes)
    requires Encodable(f)
    ensures var tag := 8 * f.number + if f.VarintField? then 0 else 2;
            && ReadVarint(EncodeField(f) + rest) == Ok((tag, |Encode(tag)|))
            && WireType(tag) == (if f.VarintField? then 0 else 2) && Number(tag) == f.number % TWO32
            && (EncodeField(f) + rest)[|Encode(tag)|..] == EncodeField(f)[|Encode(tag)|..] + rest
  {
    var tag := 8 * f.number + if f.VarintField? then 0 else 2;
    var head, body := Encode(tag), EncodeField(f)[|Encode(tag)|..];
    assert EncodeField(f) == head + body;
    assert EncodeField(f) + rest == head + (body + rest);
    VarintRoundTrip(tag, body + rest);
  }

  /** Outside wire types 0 and 2 a record is refused; a response also skips types 1 and 5, as if they had a length. */
  lemma OtherWireTypes(
      utf8: Utf8, number: nat, wireType: nat, payload: bytes, rest: bytes, svid: Svid, svids: seq<Svid>)
    requires wireType < 8 && wireType != 0 && wireType != 2 && 8 * number + wireType < TWO64 && |payload| < TWO64
    ensures var s := Encode(8 * number + wireType) + (Encode(|payload|) + payload + rest);
            var unsupported := UnsupportedWireType(wireType, number % 0x1_0000_0000);
            && ReadSvidField(utf8, s, svid) == Err(unsupported)
            && (wireType == 1 || wireType == 5 ==> ReadField(utf8, s, svids) == Ok((svids, |s| - |rest|)))
            && (wireType != 1 && wireType != 5 ==> ReadField(utf8, s, svids) == Err(unsupported))
  {
    var tag := 8 * number + wireType;
    var body := Encode(|payload|) + payload + rest;
    VarintRoundTrip(tag, body);
    assert WireType(tag) == wireType && Number(tag) == number % TWO32;
    assert (Encode(tag) + body)[|Encode(tag)|..] == body;
    BytesRoundTrip(payload, rest);
  }

  lemma ReadEncodedSvidField(utf8: Utf8, f: Field, rest: bytes, svid: Svid)
    requires Encodable(f)
    ensures ReadSvidField(utf8, EncodeField(f) + rest, svid) ==
            match RecordOf(utf8, [f], svid)
            case Err(e) => Err(e)
            case Ok(svid') => Ok((svid', |EncodeField(f)|))
  {
    TagRoundTrip(f, rest);
    match f
    case VarintField(number, value) => VarintRoundTrip(value, rest);
    case BytesField(number, payload) => BytesRoundTrip(payload, rest);
  }

  lemma {:induction false} ReadEncodedSvid(utf8: Utf8, fs: seq<Field>, svid: Svid)
    requires AllEncodable(fs)
    ensures ReadSvid(utf8, EncodeFields(fs), svid) == RecordOf(utf8, fs, svid)
    decreases |fs|
  {
    if fs != [] {
      var f, rest := fs[0], EncodeFields(fs[1..]);
      ReadEncodedSvidField(utf8, f, rest, svid);
      assert (EncodeField(f) + rest)[|EncodeField(f)|..] == rest;
      match RecordOf(utf8, [f], svid)
      case Err(_) =>
      case Ok(svid') => ReadEncodedSvid(utf8, fs[1..], svid');
    }
  }

  lemma ReadEncodedField(utf8: Utf8, f: Field, rest: bytes, svids: seq<Svid>)
    requires Encodable(f)
    ensures EncodeField(f) != []
    ensures ReadField(utf8, EncodeField(f) + rest, svids) ==
            match if f.VarintField? then Ok(svids) else AddRecord(utf8, svids, f.number % TWO32, f.payload)
            case Err(err) => Err(err)
            case Ok(svids') => Ok((svids', |EncodeField(f)|))
  {
    hide AddRecord;
    TagRoundTrip(f, rest);
    match f
    case VarintField(number, value) => VarintRoundTrip(value, rest);
    case BytesField(number, payload) => BytesRoundTrip(payload, rest);
  }

  lemma ReadEncodedEntry(utf8: Utf8, e: Entry, rest: bytes, svids: seq<Svid>)
    requires WellFormed(e)
    ensures EncodeField(EntryField(e)) != []
    ensures ReadField(utf8, EncodeField(EntryField(e)) + rest, svids) ==
            match RecordsOf(utf8, [e], svids)
            case Err(err) => Err(err)
            case Ok(svids') => Ok((svids', |EncodeField(EntryField(e))|))
  {
    hide ReadField;
    hide EncodeField;
    hide ReadSvidField;
    ReadEncodedField(utf8, EntryField(e), rest, svids);
    if e.Record? {
      ReadEncodedSvid(utf8, e.fields, EMPTY_SVID);
    }
  }

  /**
   Decoding undoes encoding: every response, its records' fields in any order and with
   unknown varint and length-delimited fields anywhere, decodes to what it says.
   */
  lemma {:induction false} ReadEncodedResponse(utf8: Utf8, es: seq<Entry>, svids: seq<Svid>)
    requires forall i :: 0 <= i < |es| ==> WellFormed(es[i])
    ensures ReadResponse(utf8, EncodeResponse(es), svids) == RecordsOf(utf8, es, svids)
    decreases |es|
  {
    hide ReadField;
    hide EncodeField;
    hide RecordOf;
    if es != [] {
      var e, rest := es[0], EncodeResponse(es[1..]);
      var head := EncodeField(EntryField(e));
      ReadEncodedEntry(utf8, e, rest, svids);
      assert (head + rest)[|head|..] == rest;
      match RecordsOf(utf8, [e], svids)
      case Err(_) =>
      case Ok(svids') => ReadEncodedResponse(utf8, es[1..], svids');
    }
  }
}
