// The log of FlogLoggerImpl, a file of length-prefixed messages, and
// FlogReaderImpl, which reads it through a 16 KiB buffer.

module Flog {
  import opened Bytes
  import opened Options
  import opened Sequences

  const MAX_SIZE: nat := 0x1_0000_0000
  const READ_BUFFER_SIZE: nat := 16 * 1024

  // ----- the format

  /** A 32-bit number, least significant byte first. */
  function Le32(n: nat): (b: seq<byte>)
    requires n < MAX_SIZE
    ensures |b| == 4
  {
    [(n % 256) as byte, (n / 256 % 256) as byte, (n / 0x1_0000 % 256) as byte, (n / 0x100_0000 % 256) as byte]
  }

  function FromLe32(b: seq<byte>): nat
    requires |b| == 4
  {
    b[0] as nat + 256 * b[1] as nat + 0x1_0000 * b[2] as nat + 0x100_0000 * b[3] as nat
  }

  lemma Le32RoundTrip(n: nat)
    requires n < MAX_SIZE
    ensures FromLe32(Le32(n)) == n
  {
    var q := n / 256;
    assert n / 0x1_0000 == q / 256 && n / 0x100_0000 == q / 256 / 256;
  }

  lemma FromLe32RoundTrip(b: seq<byte>)
    requires |b| == 4
    ensures FromLe32(b) < MAX_SIZE && Le32(FromLe32(b)) == b
  {
    var n := FromLe32(b);
    assert n / 256 == b[1] as nat + 256 * b[2] as nat + 0x1_0000 * b[3] as nat;
    assert n / 0x1_0000 == b[2] as nat + 256 * b[3] as nat;
    assert n / 0x100_0000 == b[3] as nat;
  }

  predicate IsMessage(m: seq<byte>) {
    0 < |m| < MAX_SIZE
  }

  // ----- reading

  function Min(a: nat, b: nat): nat {
    if a < b then a else b
  }

  /** Whether a stretch of the file begins in one buffer load and ends in a later one. */
  predicate Straddles(from: nat, to: nat) {
    from < to && from / READ_BUFFER_SIZE != (to - 1) / READ_BUFFER_SIZE
  }

  /** What reading a record at a position comes to. */
  datatype Record = Record(payload: seq<byte>, next: nat) | End | Corrupt

  function RecordFrom(file: seq<byte>, p: nat): Record
    requires p <= |file|
  {
    if p == |file| then End
    else if |file| - p < 4 then Corrupt
    else
      var size := FromLe32(file[p..p + 4]);
      if size == 0 || |file| - p - 4 < size then Corrupt else Record(file[p + 4..p + 4 + size], p + 4 + size)
  }

  /** Where a reader that skips the record at p stops: after the payload, or what there is of it. */
  function PayloadEnd(file: seq<byte>, p: nat): nat
    requires p <= |file|
  {
    if |file| - p < 4 then p else p + 4 + Min(FromLe32(file[p..p + 4]), |file| - p - 4)
  }

  /** The payloads in a file, where their records begin, and where the first thing that is no record does. */
  datatype Parse = Parse(payloads: seq<seq<byte>>, offsets: seq<nat>)

  ghost predicate RecordOk(file: seq<byte>, p: Parse, k: nat)
    requires |p.offsets| == |p.payloads| + 1 && k < |p.payloads|
  {
    p.offsets[k] <= |file| && RecordFrom(file, p.offsets[k]) == Record(p.payloads[k], p.offsets[k + 1])
  }

  ghost predicate IsPartialParse(file: seq<byte>, p: Parse) {
    && |p.offsets| == |p.payloads| + 1 && p.offsets[0] == 0 && Last(p) <= |file|
    && forall k {:trigger RecordOk(file, p, k)} :: 0 <= k < |p.payloads| ==> RecordOk(file, p, k)
  }

  function Last(p: Parse): nat
    requires |p.offsets| == |p.payloads| + 1
  {
    p.offsets[|p.payloads|]
  }

  ghost predicate IsParse(file: seq<byte>, p: Parse) {
    IsPartialParse(file, p) && !RecordFrom(file, Last(p)).Record?
  }

  /** Whether a file ends with something that is no record. */
  predicate IsCorrupt(file: seq<byte>, p: Parse)
    requires |p.offsets| == |p.payloads| + 1 && Last(p) <= |file|
  {
    RecordFrom(file, Last(p)).Corrupt?
  }

  lemma {:induction false} ParseOnwards(file: seq<byte>, p: Parse) returns (q: Parse)
    requires IsPartialParse(file, p)
    ensures IsParse(file, q)
    decreases |file| - Last(p)
  {
    match RecordFrom(file, Last(p))
    case Record(payload, next) =>
      var longer := Parse(p.payloads + [payload], p.offsets + [next]);
      forall k | 0 <= k < |longer.payloads|
        ensures RecordOk(file, longer, k)
      {
        assert k < |p.payloads| ==> RecordOk(file, p, k);
      }
      q := ParseOnwards(file, longer);
    case _ => q := p;
  }

  /** Every file can be parsed. */
  lemma EveryFileParses(file: seq<byte>)
    ensures exists p :: IsParse(file, p)
  {
    var p := ParseOnwards(file, Parse([], [0]));
  }

  /** And in one way only. */
  lemma ParseUnique(file: seq<byte>, p: Parse, q: Parse)
    requires IsParse(file, p) && IsParse(file, q)
    ensures p == q
  {
    var n := Min(|p.payloads|, |q.payloads|);
    forall k: nat | k <= n
      ensures p.offsets[k] == q.offsets[k]
    {
      SameOffset(file, p, q, k);
    }
    assert n < |p.payloads| ==> RecordOk(file, p, n);
    assert n < |q.payloads| ==> RecordOk(file, q, n);
    forall k: nat | k < n
      ensures p.payloads[k] == q.payloads[k]
    {
      assert RecordOk(file, p, k) && RecordOk(file, q, k);
    }
  }

  lemma {:induction false} SameOffset(file: seq<byte>, p: Parse, q: Parse, k: nat)
    requires IsParse(file, p) && IsParse(file, q) && k <= |p.payloads| && k <= |q.payloads|
    ensures p.offsets[k] == q.offsets[k]
  {
    if k > 0 {
      SameOffset(file, p, q, k - 1);
      assert RecordOk(file, p, k - 1) && RecordOk(file, q, k - 1);
    }
  }

  /** Skipping record k, or what is there instead of it, straddles. */
  predicate StrayAt(file: seq<byte>, p: Parse, k: nat) {
    && k < |p.offsets| && p.offsets[k] <= |file|
    && Straddles(p.offsets[k] + 4, PayloadEnd(file, p.offsets[k]))
  }

  /** Skipping from record i up to record j straddles somewhere. */
  predicate AnyStray(file: seq<byte>, p: Parse, i: nat, j: nat) {
    i < j && (AnyStray(file, p, i, j - 1) || StrayAt(file, p, j - 1))
  }

  lemma {:induction false} AnyStrayMeans(file: seq<byte>, p: Parse, i: nat, j: nat)
    ensures AnyStray(file, p, i, j) <==> exists k: nat | i <= k < j :: StrayAt(file, p, k)
  {
    if i < j {
      AnyStrayMeans(file, p, i, j - 1);
    }
  }

  lemma {:induction false} NoStrayAfterEnd(file: seq<byte>, p: Parse, i: nat, j: nat, k: nat)
    requires i <= j <= k && |p.offsets| <= j
    ensures AnyStray(file, p, i, k) <==> AnyStray(file, p, i, j)
    decreases k
  {
    if j < k {
      NoStrayAfterEnd(file, p, i, j, k - 1);
    }
  }

  /** The messages from start on, at most count of them; none if reading them would run into something corrupt. */
  function Entries(p: Parse, corrupt: bool, start: nat, count: nat): seq<seq<byte>> {
    if start > |p.payloads| || (corrupt && start + count > |p.payloads|) then []
    else p.payloads[start..Min(start + count, |p.payloads|)]
  }

  /** Reading on where one call stopped gives what one longer call gives, and reading all gives all. */
  lemma EntriesGoOn(p: Parse, start: nat, count: nat, more: nat)
    ensures Entries(p, false, start, count + more) ==
              Entries(p, false, start, count) + Entries(p, false, start + count, more)
    ensures Entries(p, false, 0, |p.payloads|) == p.payloads && |Entries(p, false, start, count)| <= count
    ensures Entries(p, true, start, count) ==
              if start + count > |p.payloads| then [] else Entries(p, false, start, count)
  {
  }

  // ----- writing

  /** A log of messages: the size of each and then the message. */
  function Log(messages: seq<seq<byte>>): seq<byte>
    requires forall i :: 0 <= i < |messages| ==> IsMessage(messages[i])
  {
    if messages == [] then []
    else
      var last := messages[|messages| - 1];
      assert IsMessage(last);
      Log(messages[..|messages| - 1]) + Le32(|last|) + last
  }

  lemma RecordIs(file: seq<byte>, p: nat)
    requires p <= |file| && RecordFrom(file, p).Record?
    ensures var r := RecordFrom(file, p);
            && IsMessage(r.payload) && p <= r.next <= |file|
            && file[..r.next] == file[..p] + Le32(|r.payload|) + r.payload
  {
    var r := RecordFrom(file, p);
    FromLe32RoundTrip(file[p..p + 4]);
    assert file[..r.next] == file[..p] + file[p..p + 4] + file[p + 4..r.next];
  }

  lemma {:induction false} ParsedUpTo(file: seq<byte>, p: Parse, k: nat)
    requires IsPartialParse(file, p) && k <= |p.payloads|
    ensures forall i :: 0 <= i < k ==> IsMessage(p.payloads[i])
    ensures p.offsets[k] <= |file| && Log(p.payloads[..k]) == file[..p.offsets[k]]
  {
    if k > 0 {
      ParsedUpTo(file, p, k - 1);
      assert RecordOk(file, p, k - 1);
      RecordIs(file, p.offsets[k - 1]);
      assert p.payloads[..k][..k - 1] == p.payloads[..k - 1];
    }
  }

  /**
   * A file begins with the log of the messages that it parses into, and ends with it unless something
   * corrupt is left: it is in order exactly if it is that log.
   */
  lemma ParseIsLog(file: seq<byte>, p: Parse)
    requires IsParse(file, p)
    ensures forall i :: 0 <= i < |p.payloads| ==> IsMessage(p.payloads[i])
    ensures Log(p.payloads) <= file
    ensures !IsCorrupt(file, p) <==> Log(p.payloads) == file
  {
    ParsedUpTo(file, p, |p.payloads|);
    assert p.payloads[..|p.payloads|] == p.payloads;
    assert Last(p) == |file| ==> file[..Last(p)] == file;
  }

  lemma RecordExtends(file: seq<byte>, tail: seq<byte>, p: nat)
    requires p <= |file| && RecordFrom(file, p).Record?
    ensures RecordFrom(file + tail, p) == RecordFrom(file, p)
  {
    var size := FromLe32(file[p..p + 4]);
    SliceBefore(file, tail, p, p + 4);
    SliceBefore(file, tail, p + 4, p + 4 + size);
  }

  lemma RecordAppended(file: seq<byte>, header: seq<byte>, m: seq<byte>)
    requires |header| == 4 && |m| > 0 && FromLe32(header) == |m|
    ensures RecordFrom(file + header + m, |file|) == Record(m, |file| + 4 + |m|)
  {
    var longer, p := file + header + m, |file|;
    assert longer[p..p + 4] == header;
    assert longer[p + 4..p + 4 + |m|] == m;
  }

  /** Appending a message to a file that is in order appends it to what the file parses into. */
  lemma ParseAppended(file: seq<byte>, p: Parse, header: seq<byte>, m: seq<byte>)
    requires IsParse(file, p) && !IsCorrupt(file, p)
    requires |header| == 4 && |m| > 0 && FromLe32(header) == |m|
    ensures var q := Parse(p.payloads + [m], p.offsets + [|file| + 4 + |m|]);
            IsParse(file + header + m, q) && !IsCorrupt(file + header + m, q)
  {
    var q, longer := Parse(p.payloads + [m], p.offsets + [|file| + 4 + |m|]), file + header + m;
    RecordAppended(file, header, m);
    forall k | 0 <= k < |q.payloads|
      ensures RecordOk(longer, q, k)
    {
      if k < |p.payloads| {
        assert RecordOk(file, p, k);
        RecordExtends(file, header + m, p.offsets[k]);
        assert file + (header + m) == longer;
      }
    }
    assert IsPartialParse(longer, q);
  }

  /** A log is in order and parses into the messages accepted. */
  class FlogLoggerImpl {
    var file: seq<byte>
    ghost var parse: Parse

    ghost predicate Valid()
      reads this
    {
      IsParse(file, parse) && !IsCorrupt(file, parse)
    }

    constructor ()
      ensures Valid() && parse.payloads == []
    {
      file, parse := [], Parse([], [0]);
    }

    method Accept(message: seq<byte>)
      requires Valid() && IsMessage(message)
      modifies this
      ensures Valid() && parse.payloads == old(parse.payloads) + [message]
      ensures file == old(file) + Le32(|message|) + message
    {
      ParseAppended(file, parse, Le32(|message|), message) by {
        Le32RoundTrip(|message|);
      }
      parse := Parse(parse.payloads + [message], parse.offsets + [|file| + 4 + |message|]);
      WriteData(Le32(|message|));
      WriteData(message);
    }

    method WriteData(data: seq<byte>)
      modifies `file
      ensures file == old(file) + data
    {
      file := file + data;
    }
  }

  // ----- what strays

  /** Skipping a record strays exactly if its payload straddles; at the end of a file in order nothing strays. */
  lemma StrayIsStraddle(file: seq<byte>, p: Parse, k: nat)
    requires IsParse(file, p)
    ensures k < |p.payloads| ==> (StrayAt(file, p, k) <==> Straddles(p.offsets[k] + 4, p.offsets[k + 1]))
    ensures k >= |p.payloads| && !IsCorrupt(file, p) ==> !StrayAt(file, p, k)
  {
    if k < |p.payloads| {
      assert RecordOk(file, p, k);
    }
  }

  /** A payload longer than the buffer always straddles. */
  lemma LongStraddles(from: nat, size: nat)
    requires size > READ_BUFFER_SIZE
    ensures Straddles(from, from + size)
  {
  }

  /** Skipping a record whose payload is longer than the buffer strays, wherever it is in the file. */
  lemma LongRecordStrays(file: seq<byte>, p: Parse, i: nat, j: nat, k: nat)
    requires IsParse(file, p) && i <= k < j && k < |p.payloads| && |p.payloads[k]| > READ_BUFFER_SIZE
    ensures AnyStray(file, p, i, j)
  {
    assert RecordOk(file, p, k);
    LongStraddles(p.offsets[k] + 4, |p.payloads[k]|);
    StrayIsStraddle(file, p, k);
    AnyStrayMeans(file, p, i, j);
  }

  /** Whether bytes that are to be discarded are written somewhere, when the destination is offset bytes from null. */
  predicate Stray(from: int, to: int, offset: nat) {
    0 <= from < to && (offset > 0 || Straddles(from, to))
  }

  /** The bytes of the file between two positions have arrived at offset. */
  predicate Received(before: seq<byte>, after: seq<byte>, offset: nat, file: seq<byte>, from: int, to: int) {
    && 0 <= from <= to <= |file| && offset + to - from <= |before|
    && after == Patched(before, offset, file[from..to])
  }

  lemma ReceivedTwice(a: seq<byte>, b: seq<byte>, c: seq<byte>, offset: nat, file: seq<byte>, from: int, middle: int,
                      to: int)
    requires Received(a, b, offset, file, from, middle)
    requires offset + middle - from >= 0 && Received(b, c, offset + middle - from, file, middle, to)
    ensures Received(a, c, offset, file, from, to)
  {
    assert file[from..middle] + file[middle..to] == file[from..to];
  }

  lemma NothingReceived(data: seq<byte>, offset: nat, file: seq<byte>, from: int)
    requires 0 <= from <= |file|
    ensures offset <= |data| ==> Received(data, data, offset, file, from, from)
  {
  }

  lemma WholeReceived(before: seq<byte>, after: seq<byte>, file: seq<byte>, from: int, to: int)
    requires Received(before, after, 0, file, from, to) && to - from == |before|
    ensures after == file[from..to]
  {
  }

  /** Bytes u up to u + n of one load of the buffer. */
  lemma WithinLoad(buffer: seq<byte>, file: seq<byte>, from: nat, u: nat, n: nat, load: nat)
    requires IsLoad(buffer, file, from) && from == load * READ_BUFFER_SIZE && |buffer| <= READ_BUFFER_SIZE
    requires n > 0 && u + n <= |buffer|
    ensures buffer[u..u + n] == file[from + u..from + u + n]
    ensures !Straddles(from + u, from + u + n)
  {
  }

  /** A read that goes on in the next load strays exactly if anything is left to read. */
  lemma StrayOn(from: nat, middle: nat, to: nat, offset: nat, load: nat)
    requires from < middle <= to && middle == load * READ_BUFFER_SIZE
    ensures Stray(from, to, offset) <==>
              offset > 0 || Stray(middle, to, offset + (middle - from)) || Straddles(from, middle)
  {
  }

  /** The buffer holds what the file holds from there on. */
  ghost predicate IsLoad(buffer: seq<byte>, file: seq<byte>, from: int) {
    && 0 <= from && from + |buffer| <= |file|
    && forall i {:trigger buffer[i]} :: 0 <= i < |buffer| ==> buffer[i] == file[from + i]
  }

  /** A reader of a file that no longer changes. */
  class FlogReaderImpl {
    const file: seq<byte>
    ghost const parse: Parse
    var filePosition: nat
    var readBuffer: seq<byte>
    var readBufferBytesUsed: nat
    var currentEntryIndex: nat
    var fault: bool

    /** How many loads of the buffer precede the present one in the file. */
    ghost var loads: nat

    /** Something has been written to an address that is not in any buffer. */
    var wildWrite: bool

    /** The read buffer is one aligned stretch of the file, the last one if it is short. */
    ghost predicate Buffered()
      reads this
    {
      && readBufferBytesUsed <= |readBuffer| <= READ_BUFFER_SIZE
      && |readBuffer| <= filePosition <= |file|
      && IsLoad(readBuffer, file, filePosition - |readBuffer|)
      && filePosition - |readBuffer| == loads * READ_BUFFER_SIZE
      && (|readBuffer| < READ_BUFFER_SIZE ==> filePosition == |file|)
    }

    /** Where the next byte comes from. */
    function Position(): int
      reads this
    {
      filePosition - (|readBuffer| - readBufferBytesUsed)
    }

    ghost predicate Valid()
      reads this
    {
      && Buffered() && IsParse(file, parse) && currentEntryIndex <= |parse.payloads|
      && (!fault ==> Position() == parse.offsets[currentEntryIndex])
    }

    constructor (log: seq<byte>, ghost p: Parse)
      requires IsParse(log, p)
      ensures Valid() && file == log && parse == p && currentEntryIndex == 0 && !fault && !wildWrite
    {
      file, parse := log, p;
      filePosition, readBuffer, readBufferBytesUsed, loads := 0, [], 0, 0;
      currentEntryIndex, fault, wildWrite := 0, false, false;
      new;
      FillReadBuffer(true);
    }

    /** Loads the next stretch of the file, or the first one. */
    method FillReadBuffer(restart: bool)
      requires restart || (Buffered() && |readBuffer| == READ_BUFFER_SIZE)
      modifies `filePosition, `readBuffer, `readBufferBytesUsed, `loads
      ensures Buffered() && readBufferBytesUsed == 0
      ensures Position() == if restart then 0 else old(filePosition)
    {
      if restart {
        filePosition := 0;
      }
      Read(if restart then 0 else loads + 1);
    }

    method Read(ghost load: nat)
      requires filePosition <= |file| && filePosition == load * READ_BUFFER_SIZE
      modifies `filePosition, `readBuffer, `readBufferBytesUsed, `loads
      ensures Buffered() && readBufferBytesUsed == 0 && Position() == old(filePosition)
    {
      var n := Min(READ_BUFFER_SIZE, |file| - filePosition);
      readBuffer := file[filePosition..filePosition + n];
      readBufferBytesUsed := 0;
      filePosition := filePosition + n;
      loads := load;
    }

    /**
     * A plain read of the file. A null destination means that the data is discarded, but beyond the
     * first buffer load the destination is no longer null, and the data goes astray.
     */
    method ReadData(dataSize: nat, data: array?<byte>, offset: nat) returns (bytesRead: nat)
      requires Buffered() && dataSize > 0
      requires data != null ==> offset + dataSize <= data.Length
      modifies `filePosition, `readBuffer, `readBufferBytesUsed, `loads, `wildWrite
      modifies if data != null then {data} else {}
      ensures Buffered() && Position() == old(Position()) + bytesRead
      ensures bytesRead == Min(dataSize, |file| - old(Position()))
      ensures data != null ==> Received(old(data[..]), data[..], offset, file, old(Position()), Position())
      ensures wildWrite == (old(wildWrite) || (data == null && Stray(old(Position()), Position(), offset)))
      decreases dataSize
    {
      var n, done := ReadLoad(dataSize, data, offset);
      if done {
        return n;
      }
      ghost var from, middle, load := old(Position()), Position(), loads + 1;
      ghost var partly := if data == null then [] else data[..];
      var rest := ReadData(dataSize - n, data, offset + n);
      if data != null {
        ReceivedTwice(old(data[..]), partly, data[..], offset, file, from, middle, Position());
      } else {
        StrayOn(from, middle, Position(), offset, load);
      }
      return rest + n;
    }

    /** Reads what one load of the buffer has; done if that is all there is or all that is wanted. */
    method ReadLoad(dataSize: nat, data: array?<byte>, offset: nat) returns (n: nat, done: bool)
      requires Buffered() && dataSize > 0
      requires data != null ==> offset + dataSize <= data.Length
      modifies `filePosition, `readBuffer, `readBufferBytesUsed, `loads, `wildWrite
      modifies if data != null then {data} else {}
      ensures Buffered() && Position() == old(Position()) + n && n <= dataSize
      ensures if done then n == Min(dataSize, |file| - old(Position()))
              else 0 < n < dataSize && Position() == (loads + 1) * READ_BUFFER_SIZE
      ensures data != null ==> Received(old(data[..]), data[..], offset, file, old(Position()), Position())
      ensures wildWrite == (old(wildWrite) || (data == null && Stray(old(Position()), Position(), offset)))
      ensures !Straddles(old(Position()), Position())
    {
      var more := Refill();
      if !more {
        NothingReceived(if data == null then [] else data[..], offset, file, Position());
        return 0, true;
      }
      n := Min(|readBuffer| - readBufferBytesUsed, dataSize);
      Take(n, data, offset);
      done := n == dataSize || |readBuffer| < READ_BUFFER_SIZE;
    }

    /** Loads the buffer while nothing is left in it; false at the end of the file. */
    method Refill() returns (more: bool)
      requires Buffered()
      modifies `filePosition, `readBuffer, `readBufferBytesUsed, `loads
      ensures Buffered() && Position() == old(Position())
      ensures if more then readBufferBytesUsed < |readBuffer| else Position() == |file|
    {
      while |readBuffer| - readBufferBytesUsed == 0
        invariant Buffered() && Position() == old(Position())
        decreases |file| - filePosition, |readBuffer|
      {
        if |readBuffer| < READ_BUFFER_SIZE {
          return false;
        }
        FillReadBuffer(false);
      }
      return true;
    }

    /** Copies or discards bytes from the buffer. */
    method Take(n: nat, data: array?<byte>, offset: nat)
      requires Buffered() && 0 < n <= |readBuffer| - readBufferBytesUsed
      requires data != null ==> offset + n <= data.Length
      modifies `readBufferBytesUsed, `wildWrite
      modifies if data != null then {data} else {}
      ensures Buffered() && readBufferBytesUsed == old(readBufferBytesUsed) + n
      ensures data != null ==> Received(old(data[..]), data[..], offset, file, old(Position()), Position())
      ensures wildWrite == (old(wildWrite) || (data == null && Stray(old(Position()), Position(), offset)))
      ensures !Straddles(old(Position()), Position())
    {
      if data != null {
        Copy(data, offset, readBuffer[readBufferBytesUsed..readBufferBytesUsed + n]);
      } else if offset > 0 {
        wildWrite := true;
      }
      WithinLoad(readBuffer, file, filePosition - |readBuffer|, readBufferBytesUsed, n, loads);
      readBufferBytesUsed := readBufferBytesUsed + n;
    }

    method Copy(data: array<byte>, offset: nat, source: seq<byte>)
      requires offset + |source| <= data.Length
      modifies data
      ensures data[..] == Patched(old(data[..]), offset, source)
    {
      forall i | 0 <= i < |source| {
        data[offset + i] := source[i];
      }
    }

    /** Fills a buffer, as far as the file goes. */
    method ReadPlain(data: array<byte>) returns (bytesRead: nat)
      requires Buffered() && data.Length > 0
      modifies `filePosition, `readBuffer, `readBufferBytesUsed, `loads, `wildWrite, data
      ensures Buffered() && Position() == old(Position()) + bytesRead && wildWrite == old(wildWrite)
      ensures bytesRead == Min(data.Length, |file| - old(Position()))
      ensures bytesRead == data.Length ==> data[..] == file[old(Position())..Position()]
    {
      bytesRead := ReadData(data.Length, data, 0);
      if bytesRead == data.Length {
        WholeReceived(old(data[..]), data[..], file, old(Position()), Position());
      }
    }

    /** Reads the size of the next record; a file that ends within it is corrupt. */
    method ReadSize() returns (size: Option<nat>)
      requires Buffered() && !fault
      modifies `filePosition, `readBuffer, `readBufferBytesUsed, `loads, `wildWrite, `fault
      ensures Buffered() && wildWrite == old(wildWrite)
      ensures var p := old(Position());
              if p == |file| then size == None && !fault && Position() == p
              else if |file| - p < 4 then size == None && fault
              else Position() == p + 4 && var n := FromLe32(file[p..p + 4]);
                   size == (if n == 0 then None else Some(n)) && fault == (n == 0)
    {
      var header := new byte[4](_ => 0);
      var bytesRead := ReadPlain(header);
      if bytesRead < 4 {
        fault := bytesRead != 0;
        return None;
      }
      assert |header[..]| == 4;
      var messageSize := FromLe32(header[..]);
      if messageSize == 0 {
        fault := true;
        return None;
      }
      return Some(messageSize);
    }

    /** Skips a record. Its payload goes astray if it straddles. */
    method DiscardEntry() returns (ok: bool)
      requires Valid() && !fault
      modifies `filePosition, `readBuffer, `readBufferBytesUsed, `loads, `wildWrite, `currentEntryIndex, `fault
      ensures Valid() && ok == (old(currentEntryIndex) < |parse.payloads|)
      ensures fault == (!ok && IsCorrupt(file, parse))
      ensures currentEntryIndex == old(currentEntryIndex) + if ok then 1 else 0
      ensures wildWrite == (old(wildWrite) || StrayAt(file, parse, old(currentEntryIndex)))
    {
      assert currentEntryIndex < |parse.payloads| ==> RecordOk(file, parse, currentEntryIndex);
      ok := DiscardRecord();
      if ok {
        currentEntryIndex := currentEntryIndex + 1;
      }
    }

    method DiscardRecord() returns (ok: bool)
      requires Buffered() && !fault && Position() >= 0
      modifies `filePosition, `readBuffer, `readBufferBytesUsed, `loads, `wildWrite, `fault
      ensures Buffered()
      ensures var r := RecordFrom(file, old(Position()));
              && ok == r.Record? && fault == r.Corrupt?
              && (r.Record? ==> Position() == r.next) && (r.End? ==> Position() == old(Position()))
      ensures var p := old(Position()); wildWrite == (old(wildWrite) || Straddles(p + 4, PayloadEnd(file, p)))
    {
      var messageSize := ReadSize();
      if messageSize.None? {
        return false;
      }
      var bytesRead := ReadData(messageSize.value, null, 0);
      assert Position() == PayloadEnd(file, old(Position()));
      if bytesRead < messageSize.value {
        fault := true;
        return false;
      }
      return true;
    }

    /** The payload of the next record, None at the end of the file or if it is corrupt. */
    method GetEntry() returns (entry: Option<seq<byte>>)
      requires Valid() && !fault
      modifies `filePosition, `readBuffer, `readBufferBytesUsed, `loads, `wildWrite, `currentEntryIndex, `fault
      ensures Valid() && wildWrite == old(wildWrite)
      ensures entry ==
                if old(currentEntryIndex) < |parse.payloads| then Some(parse.payloads[old(currentEntryIndex)]) else None
      ensures fault == (entry.None? && IsCorrupt(file, parse))
      ensures currentEntryIndex == old(currentEntryIndex) + if entry.Some? then 1 else 0
    {
      assert currentEntryIndex < |parse.payloads| ==> RecordOk(file, parse, currentEntryIndex);
      var messageSize := ReadSize();
      if messageSize.None? {
        return None;
      }
      entry := ReadPayload(messageSize.value);
      if entry.Some? {
        currentEntryIndex := currentEntryIndex + 1;
      }
    }

    /** Reads a payload; a file that ends within it is corrupt. */
    method ReadPayload(messageSize: nat) returns (message: Option<seq<byte>>)
      requires Buffered() && !fault && messageSize > 0
      modifies `filePosition, `readBuffer, `readBufferBytesUsed, `loads, `wildWrite, `fault
      ensures Buffered() && wildWrite == old(wildWrite) && fault == message.None?
      ensures var p := old(Position());
              if |file| - p < messageSize then message == None
              else message == Some(file[p..p + messageSize]) && Position() == p + messageSize
    {
      var buffer := new byte[messageSize](_ => 0);
      var bytesRead := ReadPlain(buffer);
      if bytesRead < messageSize {
        fault := true;
        return None;
      }
      return Some(buffer[..]);
    }

    /**
     * Returns what the file holds, whatever has been read before, unless that came upon something
     * corrupt, and unless something has gone astray. Nothing does exactly if nothing that is skipped
     * on the way straddles.
     */
    method GetEntries(start: nat, count: nat) returns (entries: seq<seq<byte>>)
      requires Valid()
      modifies `filePosition, `readBuffer, `readBufferBytesUsed, `loads, `wildWrite, `currentEntryIndex, `fault
      ensures Valid()
      ensures !wildWrite ==>
                && entries == (if old(fault) then [] else Entries(parse, IsCorrupt(file, parse), start, count))
                && fault == (old(fault) || (IsCorrupt(file, parse) && start + count > |parse.payloads|))
      ensures var from := if old(currentEntryIndex) > start then 0 else old(currentEntryIndex);
              wildWrite == (old(wildWrite) || (!old(fault) && AnyStray(file, parse, from, start)))
    {
      if fault {
        return [];
      }
      if currentEntryIndex > start {
        Restart();
      }
      entries := GetEntriesFrom(start, count);
    }

    method Restart()
      requires Valid() && !fault
      modifies `filePosition, `readBuffer, `readBufferBytesUsed, `loads, `currentEntryIndex
      ensures Valid() && currentEntryIndex == 0
    {
      currentEntryIndex := 0;
      FillReadBuffer(true);
    }

    method GetEntriesFrom(start: nat, count: nat) returns (entries: seq<seq<byte>>)
      requires Valid() && !fault && currentEntryIndex <= start
      modifies `filePosition, `readBuffer, `readBufferBytesUsed, `loads, `wildWrite, `currentEntryIndex, `fault
      ensures Valid() && entries == Entries(parse, IsCorrupt(file, parse), start, count)
      ensures fault == (IsCorrupt(file, parse) && start + count > |parse.payloads|)
      ensures wildWrite == (old(wildWrite) || AnyStray(file, parse, old(currentEntryIndex), start))
    {
      var found := SkipTo(start);
      if !found {
        return [];
      }
      entries := Collect(count);
    }

    /** Skips to a record, if there are that many. */
    method SkipTo(start: nat) returns (found: bool)
      requires Valid() && !fault && currentEntryIndex <= start
      modifies `filePosition, `readBuffer, `readBufferBytesUsed, `loads, `wildWrite, `currentEntryIndex, `fault
      ensures Valid() && found == (start <= |parse.payloads|) && (found ==> currentEntryIndex == start)
      ensures fault == (!found && IsCorrupt(file, parse))
      ensures wildWrite == (old(wildWrite) || AnyStray(file, parse, old(currentEntryIndex), start))
    {
      ghost var from := currentEntryIndex;
      while currentEntryIndex < start
        invariant Valid() && !fault && from <= currentEntryIndex <= start
        invariant wildWrite == (old(wildWrite) || AnyStray(file, parse, from, currentEntryIndex))
        decreases start - currentEntryIndex
      {
        ghost var k := currentEntryIndex;
        var ok := DiscardEntry();
        if !ok {
          NoStrayAfterEnd(file, parse, from, k + 1, start);
          return false;
        }
      }
      return true;
    }

    /** The payloads of the next records, as many as there are but at most count. */
    method Collect(count: nat) returns (entries: seq<seq<byte>>)
      requires Valid() && !fault
      modifies `filePosition, `readBuffer, `readBufferBytesUsed, `loads, `wildWrite, `currentEntryIndex, `fault
      ensures Valid() && wildWrite == old(wildWrite)
      ensures entries == Entries(parse, IsCorrupt(file, parse), old(currentEntryIndex), count)
      ensures fault == (IsCorrupt(file, parse) && old(currentEntryIndex) + count > |parse.payloads|)
    {
      entries := [];
      for i := 0 to count
        invariant Valid() && !fault && wildWrite == old(wildWrite)
        invariant currentEntryIndex == old(currentEntryIndex) + i
        invariant entries == parse.payloads[old(currentEntryIndex)..currentEntryIndex]
      {
        var entry := GetEntry();
        if entry.None? {
          if fault {
            return [];
          }
          return entries;
        }
        entries := entries + [entry.value];
      }
    }
  }

  /** Whatever message is too long for the buffer, a log of it cannot be read from the second entry on. */
  method SkipLongMessage(m: seq<byte>) returns (reader: FlogReaderImpl)
    requires READ_BUFFER_SIZE < |m| < MAX_SIZE
    ensures reader.wildWrite && reader.file == Le32(|m|) + m
  {
    var logger := new FlogLoggerImpl();
    logger.Accept(m);
    reader := new FlogReaderImpl(logger.file, logger.parse);
    LongRecordStrays(reader.file, reader.parse, 0, 1, 0);
    var entries := reader.GetEntries(1, 1);
  }
}
