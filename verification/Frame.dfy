/**
 Framing of protocol messages: a twelve-byte header and a payload, written to and read from a
 byte stream, and the shared budget that bounds the payloads held at once.
 */
module Frame {
  import opened Wrappers
  import Utf8

  type Byte = Utf8.Byte

  const HEADER_LEN := 12
  const FRAME_MAGIC: seq<Byte> := [0x48, 0x4D, 0x54, 0x32]
  const U32_LIMIT := 0x1_0000_0000

  datatype MessageClass = Control | Pty | Fs | Process | Lsp | Git | Container | Relay

  datatype Error =
    | BadMagic
    | UnknownClass(byte: Byte)
    | LengthOverflow
    | ClassLimit(class_: MessageClass, length: nat, limit: nat)
    | AggregateLimit(requested: nat)
    | UnexpectedEof

  datatype Result<+T> = Ok(value: T) | Err(error: Error)

  datatype Version = Version(major: Byte, minor: Byte)
  datatype Header = Header(version: Version, class_: MessageClass, flags: Byte, payloadLen: nat)

  ghost predicate ValidHeader(h: Header) {
    h.payloadLen < U32_LIMIT
  }

  function ClassByte(c: MessageClass): Byte {
    match c
    case Control => 0
    case Pty => 1
    case Fs => 2
    case Process => 3
    case Lsp => 4
    case Git => 5
    case Container => 6
    case Relay => 7
  }

  function ClassOf(b: Byte): Result<MessageClass> {
    if b == 0 then Ok(Control)
    else if b == 1 then Ok(Pty)
    else if b == 2 then Ok(Fs)
    else if b == 3 then Ok(Process)
    else if b == 4 then Ok(Lsp)
    else if b == 5 then Ok(Git)
    else if b == 6 then Ok(Container)
    else if b == 7 then Ok(Relay)
    else Err(UnknownClass(b))
  }

  function Shift(high: nat, low: Byte): nat {
    high * 0x100 + low
  }

  lemma ShiftBack(high: nat, low: Byte)
    ensures Shift(high, low) / 0x100 == high && Shift(high, low) % 0x100 == low
  {
  }

  /** `u32::to_be_bytes` */
  function BigEndian(n: nat): (bytes: seq<Byte>)
    requires n < U32_LIMIT
    ensures |bytes| == 4
  {
    var b3: Byte := n / 0x100 / 0x100 / 0x100;
    var b2: Byte := n / 0x100 / 0x100 % 0x100;
    var b1: Byte := n / 0x100 % 0x100;
    var b0: Byte := n % 0x100;
    [b3, b2, b1, b0]
  }

  function FromBigEndian(bytes: seq<Byte>): (n: nat)
    requires |bytes| == 4
    ensures n < U32_LIMIT
  {
    Shift(Shift(Shift(bytes[0], bytes[1]), bytes[2]), bytes[3])
  }

  function EncodeHeader(h: Header): (bytes: seq<Byte>)
    requires h.payloadLen < U32_LIMIT
    ensures |bytes| == HEADER_LEN
  {
    FRAME_MAGIC + [h.version.major, h.version.minor, ClassByte(h.class_), h.flags] + BigEndian(h.payloadLen)
  }

  function DecodeHeader(bytes: seq<Byte>): (r: Result<Header>)
    requires |bytes| == HEADER_LEN
    ensures r.Ok? ==> r.value.payloadLen < U32_LIMIT
  {
    if bytes[..4] != FRAME_MAGIC then Err(BadMagic)
    else match ClassOf(bytes[6])
      case Err(e) => Err(e)
      case Ok(class_) => Ok(Header(Version(bytes[4], bytes[5]), class_, bytes[7], FromBigEndian(bytes[8..12])))
  }

  lemma BigEndianRoundTrip(n: nat, bytes: seq<Byte>)
    requires n < U32_LIMIT && |bytes| == 4
    ensures FromBigEndian(BigEndian(n)) == n
    ensures BigEndian(FromBigEndian(bytes)) == bytes
  {
    ShiftBack(bytes[0], bytes[1]);
    ShiftBack(Shift(bytes[0], bytes[1]), bytes[2]);
    ShiftBack(Shift(Shift(bytes[0], bytes[1]), bytes[2]), bytes[3]);
  }

  lemma ClassRoundTrip(c: MessageClass, b: Byte)
    ensures ClassOf(ClassByte(c)) == Ok(c)
    ensures ClassOf(b).Ok? ==> ClassByte(ClassOf(b).value) == b
    ensures ClassOf(b).Ok? <==> b < 8
  {
  }

  /** Header and bytes determine each other; exactly a wrong magic or class is refused. */
  lemma HeaderRoundTrip(h: Header, bytes: seq<Byte>)
    requires ValidHeader(h) && |bytes| == HEADER_LEN
    ensures DecodeHeader(EncodeHeader(h)) == Ok(h)
    ensures DecodeHeader(bytes).Ok? ==> EncodeHeader(DecodeHeader(bytes).value) == bytes
    ensures DecodeHeader(bytes).Ok? <==> bytes[..4] == FRAME_MAGIC && bytes[6] < 8
  {
    var e := EncodeHeader(h);
    assert e[..4] == FRAME_MAGIC && e[8..12] == BigEndian(h.payloadLen);
    ClassRoundTrip(h.class_, bytes[6]);
    BigEndianRoundTrip(h.payloadLen, bytes[8..12]);
    if DecodeHeader(bytes).Ok? {
      assert bytes == bytes[..4] + [bytes[4], bytes[5], bytes[6], bytes[7]] + bytes[8..12];
    }
  }

  /** The layout on the wire: magic, version, class by number, flags, and the length with its highest byte first. */
  lemma HeaderLayout(h: Header)
    requires ValidHeader(h)
    ensures var b := EncodeHeader(h);
            && b[..4] == [0x48, 0x4D, 0x54, 0x32] && b[4] == h.version.major && b[5] == h.version.minor && b[7] == h.flags
            && (h.class_.Control? ==> b[6] == 0) && (h.class_.Pty? ==> b[6] == 1) && (h.class_.Fs? ==> b[6] == 2)
            && (h.class_.Process? ==> b[6] == 3) && (h.class_.Lsp? ==> b[6] == 4) && (h.class_.Git? ==> b[6] == 5)
            && (h.class_.Container? ==> b[6] == 6) && (h.class_.Relay? ==> b[6] == 7)
            && h.payloadLen == Weighted(b[8], b[9], b[10], b[11])
  {
    BigEndianRoundTrip(h.payloadLen, BigEndian(h.payloadLen));
    assert EncodeHeader(h)[8..12] == BigEndian(h.payloadLen);
    ByWeight(BigEndian(h.payloadLen));
  }

  function Weighted(a: int, b: int, c: int, d: int): int {
    a * 0x100_0000 + b * 0x1_0000 + c * 0x100 + d
  }

  lemma ByWeight(bytes: seq<Byte>)
    requires |bytes| == 4
    ensures FromBigEndian(bytes) == Weighted(bytes[0], bytes[1], bytes[2], bytes[3])
  {
  }

  // ---------- messages on a stream ----------

  datatype Limits = Limits(control: nat, pty: nat, fs: nat, process: nat, extension: nat, aggregate: nat)

  function MaxFor(limits: Limits, c: MessageClass): nat {
    match c
    case Control => limits.control
    case Pty => limits.pty
    case Fs => limits.fs
    case Process => limits.process
    case _ => limits.extension
  }

  /** A message as its class and its serialized form. */
  datatype Message = Message(class_: MessageClass, payload: seq<Byte>)
  datatype Received = Received(header: Header, payload: seq<Byte>)

  function Refusal(m: Message, limits: Limits): Result<()> {
    if |m.payload| > MaxFor(limits, m.class_) then
      Err(ClassLimit(m.class_, |m.payload|, MaxFor(limits, m.class_)))
    else if |m.payload| >= U32_LIMIT then Err(LengthOverflow)
    else Ok(())
  }

  /** Each class has its own limit, the extension classes one together. */
  lemma AcceptedSize(m: Message, limits: Limits)
    ensures Refusal(m, limits).Ok? <==>
      && |m.payload| < 0x1_0000_0000
      && (m.class_.Control? ==> |m.payload| <= limits.control) && (m.class_.Pty? ==> |m.payload| <= limits.pty)
      && (m.class_.Fs? ==> |m.payload| <= limits.fs) && (m.class_.Process? ==> |m.payload| <= limits.process)
      && (m.class_.Lsp? || m.class_.Git? || m.class_.Container? || m.class_.Relay? ==> |m.payload| <= limits.extension)
  {
  }

  function FrameOf(m: Message, version: Version): Received {
    Received(Header(version, m.class_, 0, |m.payload|), m.payload)
  }

  function FrameBytes(m: Message, version: Version): seq<Byte>
    requires |m.payload| < U32_LIMIT
  {
    EncodeHeader(FrameOf(m, version).header) + m.payload
  }

  class Pipe {
    var bytes: seq<Byte>

    constructor ()
      ensures bytes == []
    {
      bytes := [];
    }

    method WriteMessage(m: Message, limits: Limits, version: Version) returns (r: Result<()>)
      modifies this
      ensures r == Refusal(m, limits)
      ensures bytes == if r.Ok? then old(bytes) + FrameBytes(m, version) else old(bytes)
    {
      var limit := MaxFor(limits, m.class_);
      if |m.payload| > limit {
        return Err(ClassLimit(m.class_, |m.payload|, limit));
      }
      if |m.payload| >= U32_LIMIT {
        return Err(LengthOverflow);
      }
      bytes := bytes + EncodeHeader(Header(version, m.class_, 0, |m.payload|));
      bytes := bytes + m.payload;
      assert bytes == old(bytes) + FrameBytes(m, version);
      r := Ok(());
    }

    /**
     Read one frame, waiting for room in the budget between header and payload. Holders of other
     frames give back `returned` bytes in the meantime; if that is not enough the read still waits.
     */
    method ReadFrame(limits: Limits, budget: AggregateBudget, returned: nat) returns (r: Reading)
      requires budget.Valid() && returned <= budget.used
      modifies this, budget
      ensures budget.Valid()
      ensures (r, bytes, budget.used) == ReadOnce(old(bytes), limits, budget.limit, old(budget.used), returned)
      ensures r.Waiting? <==>
        Needed(old(bytes), limits, budget.limit).Some?
        && Needed(old(bytes), limits, budget.limit).value > old(budget.available) + returned
      ensures r.Done? ==> (r.result, bytes) == Taken(old(bytes), limits.(aggregate := budget.limit))
      ensures r.Done? && r.result.Ok? ==> budget.used == old(budget.used) - returned + |r.result.value.payload|
    {
      if |bytes| < HEADER_LEN {
        bytes := [];
        return Done(Err(UnexpectedEof));
      }
      var header := DecodeHeader(bytes[..HEADER_LEN]);
      bytes := bytes[HEADER_LEN..];
      if header.Err? {
        return Done(Err(header.error));
      }
      var h := header.value;
      if h.payloadLen > MaxFor(limits, h.class_) {
        return Done(Err(ClassLimit(h.class_, h.payloadLen, MaxFor(limits, h.class_))));
      }
      if h.payloadLen > budget.limit {
        return Done(Err(AggregateLimit(h.payloadLen)));
      }
      var granted := budget.Reserve(h.payloadLen, returned);
      if !granted {
        return Waiting(h);
      }
      if |bytes| < h.payloadLen {
        bytes := [];
        budget.Drop(h.payloadLen);
        return Done(Err(UnexpectedEof));
      }
      r := Done(Ok(Received(h, bytes[..h.payloadLen])));
      bytes := bytes[h.payloadLen..];
    }
  }

  datatype Reading = Done(result: Result<Received>) | Waiting(header: Header)

  /** The payload bytes a read has to reserve, if it gets that far. */
  function Needed(bytes: seq<Byte>, limits: Limits, limit: nat): Option<nat> {
    if |bytes| < HEADER_LEN then None
    else match DecodeHeader(bytes[..HEADER_LEN])
      case Ok(h) => if h.payloadLen <= MaxFor(limits, h.class_) && h.payloadLen <= limit then Some(h.payloadLen) else None
      case Err(_) => None
  }

  /** One read under a budget of which `used` bytes are held and `returned` of them given back meanwhile. */
  ghost function ReadOnce(bytes: seq<Byte>, limits: Limits, limit: nat, used: nat, returned: nat): (r: (Reading, seq<Byte>, nat))
    requires returned <= used <= limit
    ensures r.2 <= limit
  {
    var (result, rest) := Taken(bytes, limits.(aggregate := limit));
    match Needed(bytes, limits, limit)
    case None => (Done(result), rest, used)
    case Some(n) =>
      if n > limit - used + returned then
        (Waiting(DecodeHeader(bytes[..HEADER_LEN]).value), bytes[HEADER_LEN..], used - returned)
      else (Done(result), rest, used - returned + if result.Ok? then n else 0)
  }

  /** The budget between the steps of its users: what is not in use is available. */
  class AggregateBudget {
    const limit: nat
    var available: nat
    var used: nat

    ghost predicate Valid()
      reads this
    {
      available + used == limit
    }

    constructor (limit: nat)
      ensures Valid() && this.limit == limit && used == 0
    {
      this.limit, available, used := limit, limit, 0;
    }

    /** Take a permit as soon as others have given back enough. */
    method Reserve(bytes: nat, returned: nat) returns (granted: bool)
      requires Valid() && returned <= used
      modifies this
      ensures Valid() && (granted <==> bytes <= old(available) + returned)
      ensures used == old(used) - returned + if granted then bytes else 0
    {
      available, used := available + returned, used - returned;
      granted := bytes <= available;
      if granted {
        available, used := available - bytes, used + bytes;
      }
    }

    method Drop(bytes: nat)
      requires Valid() && bytes <= used
      modifies this
      ensures Valid() && used == old(used) - bytes
    {
      available, used := available + bytes, used - bytes;
    }
  }

  /** One frame taken off the front of a stream, and what is left. */
  ghost function Taken(bytes: seq<Byte>, limits: Limits): (Result<Received>, seq<Byte>) {
    if |bytes| < HEADER_LEN then (Err(UnexpectedEof), [])
    else
      var header, rest := DecodeHeader(bytes[..HEADER_LEN]), bytes[HEADER_LEN..];
      if header.Err? then (Err(header.error), rest)
      else
        var h := header.value;
        if h.payloadLen > MaxFor(limits, h.class_) then
          (Err(ClassLimit(h.class_, h.payloadLen, MaxFor(limits, h.class_))), rest)
        else if h.payloadLen > limits.aggregate then (Err(AggregateLimit(h.payloadLen)), rest)
        else if |rest| < h.payloadLen then (Err(UnexpectedEof), [])
        else (Ok(Received(h, rest[..h.payloadLen])), rest[h.payloadLen..])
  }

  ghost predicate Accepted(m: Message, limits: Limits) {
    Refusal(m, limits).Ok? && |m.payload| <= limits.aggregate
  }

  /** A written message is read back whole, and nothing after it is touched. */
  lemma FrameRoundTrip(m: Message, version: Version, limits: Limits, rest: seq<Byte>)
    requires Accepted(m, limits)
    ensures Taken(FrameBytes(m, version) + rest, limits) == (Ok(FrameOf(m, version)), rest)
  {
    hide EncodeHeader, DecodeHeader, MaxFor;
    var header := FrameOf(m, version).header;
    var head := EncodeHeader(header);
    HeaderRoundTrip(header, head);
    SplitFrame(head, m.payload, rest);
  }

  /** A read succeeds exactly on a whole frame within the limits, and yields that frame and what follows it. */
  lemma ReadIffFrame(bytes: seq<Byte>, limits: Limits, f: Received, rest: seq<Byte>)
    ensures Taken(bytes, limits) == (Ok(f), rest) <==>
      && ValidHeader(f.header) && f.header.payloadLen == |f.payload|
      && |f.payload| <= MaxFor(limits, f.header.class_) && |f.payload| <= limits.aggregate
      && bytes == EncodeHeader(f.header) + f.payload + rest
  {
    hide EncodeHeader, DecodeHeader, MaxFor;
    if |bytes| >= HEADER_LEN {
      var head, tail := bytes[..HEADER_LEN], bytes[HEADER_LEN..];
      assert bytes == head + tail;
      HeaderRoundTrip(if ValidHeader(f.header) then f.header else Header(Version(0, 0), Control, 0, 0), head);
      if Taken(bytes, limits) == (Ok(f), rest) {
        assert tail == f.payload + rest;
        assert head + (f.payload + rest) == head + f.payload + rest;
      }
      if ValidHeader(f.header) && bytes == EncodeHeader(f.header) + f.payload + rest {
        SplitFrame(EncodeHeader(f.header), f.payload, rest);
      }
    }
  }

  /** Which error a read reports, and how much of the stream is gone then. */
  lemma WhichError(bytes: seq<Byte>, limits: Limits)
    ensures var (r, rest) := Taken(bytes, limits);
            if |bytes| < 12 then r == Err(UnexpectedEof) && rest == []
            else if bytes[..4] != FRAME_MAGIC then r == Err(BadMagic) && rest == bytes[12..]
            else if bytes[6] >= 8 then r == Err(UnknownClass(bytes[6])) && rest == bytes[12..]
            else
              var h := DecodeHeader(bytes[..12]).value;
              if h.payloadLen > MaxFor(limits, h.class_) then
                r == Err(ClassLimit(h.class_, h.payloadLen, MaxFor(limits, h.class_))) && rest == bytes[12..]
              else if h.payloadLen > limits.aggregate then
                r == Err(AggregateLimit(h.payloadLen)) && rest == bytes[12..]
              else if |bytes| - 12 < h.payloadLen then r == Err(UnexpectedEof) && rest == []
              else r.Ok?
  {
    if |bytes| >= 12 {
      assert bytes[..12][..4] == bytes[..4];
    }
  }

  lemma SplitFrame(head: seq<Byte>, payload: seq<Byte>, rest: seq<Byte>)
    requires |head| == HEADER_LEN
    ensures var bytes := head + payload + rest;
            && bytes[..HEADER_LEN] == head && bytes[HEADER_LEN..] == payload + rest
            && (payload + rest)[..|payload|] == payload && (payload + rest)[|payload|..] == rest
  {
  }

  ghost function Written(ms: seq<(Message, Version)>, limits: Limits): seq<Byte>
    requires forall i | 0 <= i < |ms| :: Accepted(ms[i].0, limits)
  {
    if ms == [] then []
    else
      assert Accepted(ms[0].0, limits);
      FrameBytes(ms[0].0, ms[0].1) + Written(ms[1..], limits)
  }

  /** Read a frame per entry of `given`, up to one that has to wait; what is read stays held until returned. */
  ghost function ReadAll(bytes: seq<Byte>, limits: Limits, limit: nat, used: nat, given: seq<nat>)
      : (seq<Reading>, seq<Byte>, nat)
    requires used <= limit
    decreases |given|
  {
    if given == [] then ([], bytes, used)
    else
      var (first, rest, used') := ReadOnce(bytes, limits, limit, used, Least(given[0], used));
      if first.Waiting? then ([first], rest, used')
      else
        var (others, end, held) := ReadAll(rest, limits, limit, used', given[1..]);
        ([first] + others, end, held)
  }

  function Least(a: nat, b: nat): nat { if a <= b then a else b }

  /** What is held after the payload of `m` has been added, and before it what is given back subtracted. */
  function HeldAfter(m: Message, used: nat, returned: nat): nat {
    used - Least(returned, used) + |m.payload|
  }

  /** Each payload in turn finds room beside what is still held. */
  ghost predicate Room(ms: seq<(Message, Version)>, limit: nat, used: nat, given: seq<nat>)
    requires |given| == |ms|
    decreases |ms|
  {
    ms != [] ==>
      HeldAfter(ms[0].0, used, given[0]) <= limit
      && Room(ms[1..], limit, HeldAfter(ms[0].0, used, given[0]), given[1..])
  }

  lemma ReadWritten(m: Message, version: Version, limits: Limits, limit: nat, used: nat, returned: nat, rest: seq<Byte>)
    requires Accepted(m, limits.(aggregate := limit)) && returned <= used <= limit
    ensures var held := used - returned + |m.payload|;
            var r := ReadOnce(FrameBytes(m, version) + rest, limits, limit, used, returned);
            if held <= limit then r == (Done(Ok(FrameOf(m, version))), rest, held) else r.0.Waiting?
  {
    hide EncodeHeader, DecodeHeader, MaxFor;
    var header := FrameOf(m, version).header;
    HeaderRoundTrip(header, EncodeHeader(header));
    SplitFrame(EncodeHeader(header), m.payload, rest);
    FrameRoundTrip(m, version, limits.(aggregate := limit), rest);
    assert MaxFor(limits.(aggregate := limit), m.class_) == MaxFor(limits, m.class_) by {
      SameLimits(limits, limit, m.class_);
    }
  }

  lemma SameLimits(limits: Limits, limit: nat, c: MessageClass)
    ensures MaxFor(limits.(aggregate := limit), c) == MaxFor(limits, c)
  {
  }

  /** What has been read is what was written. */
  ghost predicate CameOut(readings: seq<Reading>, ms: seq<(Message, Version)>) {
    && |readings| <= |ms|
    && forall i | 0 <= i < |readings| :: readings[i].Done? ==> readings[i] == Done(Ok(FrameOf(ms[i].0, ms[i].1)))
  }

  ghost predicate AllRead(readings: seq<Reading>, n: nat) {
    |readings| == n && forall i | 0 <= i < |readings| :: readings[i].Done?
  }

  lemma ReadFirst(ms: seq<(Message, Version)>, first: Reading, others: seq<Reading>)
    requires ms != [] && first == Done(Ok(FrameOf(ms[0].0, ms[0].1))) && CameOut(others, ms[1..])
    ensures CameOut([first] + others, ms)
    ensures AllRead([first] + others, |ms|) <==> AllRead(others, |ms| - 1)
  {
    if AllRead([first] + others, |ms|) {
      assert forall i | 0 <= i < |others| :: others[i] == ([first] + others)[i + 1];
    }
  }

  lemma WaitsFirst(ms: seq<(Message, Version)>, first: Reading)
    requires ms != [] && first.Waiting?
    ensures CameOut([first], ms) && !AllRead([first], |ms|)
  {
    assert [first][0] == first;
  }

  /**
   Any list of accepted messages comes out of the stream again, in order and complete, exactly if
   each finds room in the budget; without room it comes out right up to the read that waits.
   */
  lemma {:induction false} StreamRoundTrip(ms: seq<(Message, Version)>, limits: Limits, limit: nat, used: nat,
                                           given: seq<nat>, rest: seq<Byte>)
    requires used <= limit && |given| == |ms|
    requires forall i | 0 <= i < |ms| :: Accepted(ms[i].0, limits.(aggregate := limit))
    ensures var bytes := Written(ms, limits.(aggregate := limit)) + rest;
            var (readings, end, held) := ReadAll(bytes, limits, limit, used, given);
            && CameOut(readings, ms) && (Room(ms, limit, used, given) <==> AllRead(readings, |ms|))
            && (Room(ms, limit, used, given) ==> end == rest)
    decreases |ms|
  {
    var all := limits.(aggregate := limit);
    if ms == [] {
      assert Written(ms, all) + rest == rest;
    } else {
      hide FrameBytes, CameOut, AllRead, Written, ReadAll, Accepted;
      var tail := Written(ms[1..], all) + rest;
      WrittenFirst(ms, all, rest);
      ReadAllFirst(ms[0].0, ms[0].1, limits, limit, used, given, tail);
      var held := HeldAfter(ms[0].0, used, given[0]);
      if held <= limit {
        StreamRoundTrip(ms[1..], limits, limit, held, given[1..], rest);
        ReadFirst(ms, Done(Ok(FrameOf(ms[0].0, ms[0].1))), ReadAll(tail, limits, limit, held, given[1..]).0);
      } else {
        WaitsFirst(ms, ReadAll(Written(ms, all) + rest, limits, limit, used, given).0[0]);
      }
    }
  }

  lemma WrittenFirst(ms: seq<(Message, Version)>, limits: Limits, rest: seq<Byte>)
    requires ms != [] && forall i | 0 <= i < |ms| :: Accepted(ms[i].0, limits)
    ensures Accepted(ms[0].0, limits)
    ensures Written(ms, limits) + rest == FrameBytes(ms[0].0, ms[0].1) + (Written(ms[1..], limits) + rest)
  {
  }

  lemma ReadAllFirst(m: Message, version: Version, limits: Limits, limit: nat, used: nat, given: seq<nat>, tail: seq<Byte>)
    requires Accepted(m, limits.(aggregate := limit)) && used <= limit && given != []
    ensures var held := HeldAfter(m, used, given[0]);
            var (readings, end, _) := ReadAll(FrameBytes(m, version) + tail, limits, limit, used, given);
            if held <= limit then
              var (others, end', _) := ReadAll(tail, limits, limit, held, given[1..]);
              readings == [Done(Ok(FrameOf(m, version)))] + others && end == end'
            else |readings| == 1 && readings[0].Waiting?
  {
    hide ReadOnce, FrameBytes;
    ReadWritten(m, version, limits, limit, used, Least(given[0], used), tail);
  }

  function TotalPayload(ms: seq<(Message, Version)>): nat {
    if ms == [] then 0 else |ms[0].0.payload| + TotalPayload(ms[1..])
  }

  /** A reader that drops each frame before the next read never waits. */
  lemma {:induction false} RoomIfDropped(ms: seq<(Message, Version)>, limit: nat, used: nat, given: seq<nat>)
    requires |given| == |ms| && used <= limit && forall i | 0 <= i < |ms| :: given[i] >= limit
    requires forall i | 0 <= i < |ms| :: |ms[i].0.payload| <= limit
    ensures Room(ms, limit, used, given)
    decreases |ms|
  {
    if ms != [] {
      RoomIfDropped(ms[1..], limit, |ms[0].0.payload|, given[1..]);
    }
  }

  /** One that keeps all frames never waits exactly if they fit together. */
  lemma {:induction false} RoomIfKept(ms: seq<(Message, Version)>, limit: nat, used: nat, given: seq<nat>)
    requires |given| == |ms| && used <= limit && forall i | 0 <= i < |ms| :: given[i] == 0
    ensures Room(ms, limit, used, given) <==> used + TotalPayload(ms) <= limit
    decreases |ms|
  {
    if ms != [] && used + |ms[0].0.payload| <= limit {
      RoomIfKept(ms[1..], limit, used + |ms[0].0.payload|, given[1..]);
    }
  }

  // ---------- the aggregate budget ----------

  /** Taking and returning a permit are two steps each: the semaphore and the usage counter. */
  datatype Stage = Acquired | Counted | Uncounted
  datatype Permit = Permit(bytes: nat, stage: Stage)
  datatype Budget = Budget(limit: nat, available: nat, used: nat, permits: seq<Permit>)

  datatype BudgetStep = Acquire(bytes: nat) | Count(i: nat) | Uncount(i: nat) | Release(i: nat)

  ghost predicate CanStep(b: Budget, step: BudgetStep) {
    match step
    case Acquire(bytes) => bytes <= b.available
    case Count(i) => i < |b.permits| && b.permits[i].stage == Acquired
    case Uncount(i) => i < |b.permits| && b.permits[i].stage == Counted
    case Release(i) => i < |b.permits| && b.permits[i].stage == Uncounted
  }

  ghost function BudgetNext(b: Budget, step: BudgetStep): Budget
    requires CanStep(b, step) && Balanced(b)
  {
    match step
    case Acquire(bytes) => b.(available := b.available - bytes, permits := b.permits + [Permit(bytes, Acquired)])
    case Count(i) =>
      b.(used := b.used + b.permits[i].bytes, permits := b.permits[i := b.permits[i].(stage := Counted)])
    case Uncount(i) =>
      HeldAtLeast(b.permits, i, true);
      b.(used := b.used - b.permits[i].bytes, permits := b.permits[i := b.permits[i].(stage := Uncounted)])
    case Release(i) =>
      b.(available := b.available + b.permits[i].bytes, permits := b.permits[..i] + b.permits[i + 1..])
  }

  /** Bytes held by permits, all of them or only the counted ones. */
  ghost function Held(permits: seq<Permit>, countedOnly: bool): nat {
    if permits == [] then 0
    else
      var p := permits[|permits| - 1];
      Held(permits[..|permits| - 1], countedOnly) + if countedOnly && p.stage != Counted then 0 else p.bytes
  }

  ghost predicate Balanced(b: Budget) {
    b.available + Held(b.permits, false) == b.limit && b.used == Held(b.permits, true)
  }

  lemma {:induction false} HeldAtLeast(permits: seq<Permit>, i: nat, countedOnly: bool)
    requires i < |permits| && (countedOnly ==> permits[i].stage == Counted)
    ensures Held(permits, countedOnly) >= permits[i].bytes
  {
    if i < |permits| - 1 {
      HeldAtLeast(permits[..|permits| - 1], i, countedOnly);
    }
  }

  lemma {:induction false} HeldSplit(a: seq<Permit>, b: seq<Permit>, countedOnly: bool)
    ensures Held(a + b, countedOnly) == Held(a, countedOnly) + Held(b, countedOnly)
    decreases |b|
  {
    if b == [] {
      assert a + b == a;
    } else {
      HeldSplit(a, b[..|b| - 1], countedOnly);
      assert (a + b)[..|a + b| - 1] == a + b[..|b| - 1];
    }
  }

  lemma HeldAround(permits: seq<Permit>, i: nat, p: Permit, countedOnly: bool)
    requires i < |permits|
    ensures Held(permits[i := p], countedOnly)
         == Held(permits[..i], countedOnly) + Held([p], countedOnly) + Held(permits[i + 1..], countedOnly)
    ensures Held(permits[..i] + permits[i + 1..], countedOnly)
         == Held(permits[..i], countedOnly) + Held(permits[i + 1..], countedOnly)
  {
    HeldSplit(permits[..i], [p], countedOnly);
    HeldSplit(permits[..i] + [p], permits[i + 1..], countedOnly);
    HeldSplit(permits[..i], permits[i + 1..], countedOnly);
    assert permits[i := p] == permits[..i] + [p] + permits[i + 1..];
  }

  lemma BudgetStaysBalanced(b: Budget, step: BudgetStep)
    requires Balanced(b) && CanStep(b, step)
    ensures Balanced(BudgetNext(b, step)) && BudgetNext(b, step).limit == b.limit
  {
    hide Held;
    match step
    case Acquire(bytes) => Added(b.permits, Permit(bytes, Acquired));
    case Release(i) => Changed(b.permits, i, b.permits[i]);
    case Count(i) => Changed(b.permits, i, b.permits[i].(stage := Counted));
    case Uncount(i) => Changed(b.permits, i, b.permits[i].(stage := Uncounted));
  }

  ghost function Share(p: Permit, countedOnly: bool): nat {
    if countedOnly && p.stage != Counted then 0 else p.bytes
  }

  lemma Added(permits: seq<Permit>, p: Permit)
    ensures forall counted :: Held(permits + [p], counted) == Held(permits, counted) + Share(p, counted)
  {
    assert (permits + [p])[..|permits|] == permits;
  }

  /** Replacing or removing one permit changes what is held by that permit's share. */
  lemma Changed(permits: seq<Permit>, i: nat, p: Permit)
    requires i < |permits|
    ensures forall counted ::
      Held(permits[i := p], counted) == Held(permits, counted) - Share(permits[i], counted) + Share(p, counted)
    ensures forall counted ::
      Held(permits[..i] + permits[i + 1..], counted) == Held(permits, counted) - Share(permits[i], counted)
  {
    forall counted
      ensures Held(permits[i := p], counted) == Held(permits, counted) - Share(permits[i], counted) + Share(p, counted)
      ensures Held(permits[..i] + permits[i + 1..], counted) == Held(permits, counted) - Share(permits[i], counted)
    {
      assert permits[i := permits[i]] == permits;
      HeldAround(permits, i, p, counted);
      HeldAround(permits, i, permits[i], counted);
    }
  }

  ghost function BudgetRun(b: Budget, steps: seq<BudgetStep>): (end: Budget)
    requires Balanced(b)
    ensures Balanced(end) && end.limit == b.limit
    decreases |steps|
  {
    if steps == [] then b
    else if CanStep(b, steps[0]) then
      BudgetStaysBalanced(b, steps[0]);
      BudgetRun(BudgetNext(b, steps[0]), steps[1..])
    else BudgetRun(b, steps[1..])
  }

  lemma {:induction false} CountedWithinHeld(permits: seq<Permit>)
    ensures Held(permits, true) <= Held(permits, false)
  {
    if permits != [] {
      CountedWithinHeld(permits[..|permits| - 1]);
    }
  }

  /** In every interleaving usage stays within the limit, and it is nothing once all permits are gone. */
  lemma UsageWithinLimit(limit: nat, steps: seq<BudgetStep>)
    ensures var end := BudgetRun(Budget(limit, limit, 0, []), steps);
            && end.used <= limit && end.available <= limit
            && (end.permits == [] ==> end.used == 0 && end.available == limit)
  {
    CountedWithinHeld(BudgetRun(Budget(limit, limit, 0, []), steps).permits);
  }
}
