/** Packing frames into one SDIO transfer (aicwf_sdio_aggr, aicwf_sdio_aggr_send, aicwf_sdio_aggrbuf_reset and
    aicwf_sdio_txpkt of aicwf_sdio.c). */
module SdioAggregation {
  import opened Bits

  const TXPKT_BLOCKSIZE := 512
  const TAIL_LEN := 4
  const MAX_AGGR_TXPKT_LEN := 1536 * 64

  type Bytes = seq<Byte>

  /** What the firmware gets of a frame: its descriptor and payload, padded to four bytes. */
  function Padded(body: Bytes): (p: Bytes)
    ensures |body| <= |p| < |body| + 4 && |p| % 4 == 0
  {
    RoundedUp(|body|);
    body + seq((4 - |body| % 4) % 4, _ => 0)
  }

  lemma RoundedUp(n: nat)
    ensures 0 <= (4 - n % 4) % 4 < 4 && (n + (4 - n % 4) % 4) % 4 == 0
  {
  }

  function Header(len: nat): (h: Bytes)
    ensures |h| == 4
  {
    [len % 256, len / 256 % 16, 0x01, 0x00]
  }

  function Record(body: Bytes): (r: Bytes)
    ensures |r| == 4 + |Padded(body)|
  {
    Header(|Padded(body)|) + Padded(body)
  }

  /** A record is a header with the padded length in twelve bits and the type of data, the frame, and zero bytes up to a
      multiple of four. */
  lemma RecordForm(body: Bytes)
    ensures var r := Record(body);
            && |r| % 4 == 0 && 4 + |body| <= |r| < 8 + |body|
            && r[0] as nat + 256 * r[1] as nat == (|r| - 4) % 4096 && r[2] == 0x01 && r[3] == 0x00
            && r[4..4 + |body|] == body && forall k :: 4 + |body| <= k < |r| ==> r[k] == 0
  {
  }

  function Records(bodies: seq<Bytes>): (r: Bytes)
    ensures |r| % 4 == 0 && |r| >= 4 * |bodies|
  {
    if bodies == [] then [] else Record(bodies[0]) + Records(bodies[1..])
  }

  lemma {:induction false} RecordsNext(bodies: seq<Bytes>, b: Bytes)
    ensures Records(bodies + [b]) == Records(bodies) + Record(b)
  {
    hide Record;
    if bodies == [] {
      assert ([] + [b])[1..] == [];
    } else {
      var first, rest := Record(bodies[0]), Records(bodies[1..]);
      RecordsNext(bodies[1..], b);
      assert (bodies + [b])[0] == bodies[0] && (bodies + [b])[1..] == bodies[1..] + [b];
      assert Records(bodies + [b]) == first + (rest + Record(b)) == first + rest + Record(b);
    }
  }

  function AllPadded(bodies: seq<Bytes>): (ps: seq<Bytes>)
    ensures |ps| == |bodies|
  {
    seq(|bodies|, i requires 0 <= i < |bodies| => Padded(bodies[i]))
  }

  /** Reading a transfer by its length headers, up to a zero header or the end. */
  function Decode(w: Bytes): seq<Bytes>
    decreases |w|
  {
    if |w| < 4 || Len(w) == 0 || 4 + Len(w) > |w| then []
    else [w[4..4 + Len(w)]] + Decode(w[4 + Len(w)..])
  }

  function Len(w: Bytes): nat
    requires |w| >= 4
  {
    w[0] as nat + w[1] as nat % 16 * 256
  }

  predicate Ends(z: Bytes) {
    |z| < 4 || Len(z) == 0
  }

  lemma HeaderSays(n: nat)
    ensures Len(Header(n)) == n % 4096
  {
    var q, r := n / 4096, n % 4096;
    var h, l := r / 256, r % 256;
    Split(16 * q + h, l);
    Low(q, h);
  }

  lemma Split(x: nat, l: nat)
    requires l < 256
    ensures (256 * x + l) / 256 == x && (256 * x + l) % 256 == l
  {
  }

  lemma Low(q: nat, h: nat)
    requires h < 16
    ensures (16 * q + h) % 16 == h
  {
  }

  /** The last block has room for the four zero bytes. */
  function Blocks(len: nat): nat {
    (len + TXPKT_BLOCKSIZE - 1) / TXPKT_BLOCKSIZE * TXPKT_BLOCKSIZE
  }

  lemma LastBlock(len: nat)
    requires len % 4 == 0
    ensures var used := if len % TXPKT_BLOCKSIZE == 0 then len else len + TAIL_LEN;
            used <= Blocks(used) == Blocks(len) < len + TXPKT_BLOCKSIZE && Blocks(used) % TXPKT_BLOCKSIZE == 0
    ensures len % TXPKT_BLOCKSIZE == 0 ==> Blocks(len) == len
    ensures len <= MAX_AGGR_TXPKT_LEN ==> Blocks(len) <= MAX_AGGR_TXPKT_LEN
  {
  }

  lemma FirstLen(p: Bytes, z: Bytes)
    ensures var w := Header(|p|) + p + z; Len(w) == |p| % 4096 && w[4..4 + |p|] == p && w[4 + |p|..] == z
  {
    HeaderSays(|p|);
    var h, w := Header(|p|), Header(|p|) + p + z;
    assert w[0] == h[0] && w[1] == h[1];
  }

  lemma DecodeOne(p: Bytes, z: Bytes)
    requires 0 < |p| < 4096
    ensures Decode(Header(|p|) + p + z) == [p] + Decode(z)
  {
    hide Header, Len;
    FirstLen(p, z);
  }

  lemma DecodeTooLong(p: Bytes, z: Bytes)
    requires |p| >= 4096
    ensures var d := Decode(Header(|p|) + p + z); d == [] || |d[0]| < 4096
  {
    hide Header, Len;
    FirstLen(p, z);
  }

  /** Whatever follows the records, if it reads as an end: the firmware finds exactly the frames that were packed
      exactly when each of them, padded, is shorter than 4096 bytes. */
  lemma {:induction false} ComesBackExactlyWhen(bodies: seq<Bytes>, z: Bytes)
    requires NoneEmpty(bodies) && Ends(z)
    ensures Decode(Records(bodies) + z) == AllPadded(bodies) <==> AllFit(bodies)
    decreases |bodies|
  {
    if bodies == [] {
      assert Records([]) + z == z;
    } else {
      hide Decode, Padded, Ends, Header;
      var p, rest := Padded(bodies[0]), bodies[1..];
      var after := Records(rest) + z;
      assert Records(bodies) + z == Header(|p|) + p + after;
      ComesBackExactlyWhen(rest, z);
      assert AllPadded(bodies) == [p] + AllPadded(rest);
      AllFitFirst(bodies);
      if |p| < 4096 {
        DecodeOne(p, after);
        Cancel(p, Decode(after), AllPadded(rest));
      } else {
        DecodeTooLong(p, after);
      }
    }
  }

  predicate NoneEmpty(bodies: seq<Bytes>) {
    forall i :: 0 <= i < |bodies| ==> bodies[i] != []
  }

  predicate AllFit(bodies: seq<Bytes>) {
    forall b <- bodies :: |Padded(b)| < 4096
  }

  lemma AllFitFirst(bodies: seq<Bytes>)
    requires bodies != []
    ensures AllFit(bodies) <==> |Padded(bodies[0])| < 4096 && AllFit(bodies[1..])
  {
    hide Padded;
    assert bodies == [bodies[0]] + bodies[1..];
  }

  lemma Cancel(p: Bytes, a: seq<Bytes>, b: seq<Bytes>)
    ensures [p] + a == [p] + b <==> a == b
  {
    assert ([p] + a)[1..] == a && ([p] + b)[1..] == b;
  }

  /** A transfer of whole blocks: the records, four zero bytes if they do not fill their last block, and whatever the
      buffer held behind that. */
  function Transfer(records: Bytes, stale: Bytes): Bytes {
    if |records| % TXPKT_BLOCKSIZE == 0 then records
    else records + [0, 0, 0, 0] + stale
  }

  lemma TransferEnds(records: Bytes, stale: Bytes)
    ensures exists z :: Ends(z) && Transfer(records, stale) == records + z
  {
    if |records| % TXPKT_BLOCKSIZE == 0 {
      assert Ends([]) && Transfer(records, stale) == records + [];
    } else {
      var z := [0, 0, 0, 0] + stale;
      assert Ends(z) && Transfer(records, stale) == records + z;
    }
  }

  /** The aggregation buffer: `tail` is the offset of the tail pointer from the head. */
  class TxBuffer {
    const buf: array<Byte>
    var tail: nat
    var aggrCount: nat
    ghost var queued: seq<Bytes>

    ghost predicate Valid()
      reads this, buf
    {
      && buf.Length == MAX_AGGR_TXPKT_LEN
      && tail <= buf.Length && aggrCount == |queued|
      && buf[..tail] == Records(queued)
      && NoneEmpty(queued)
    }

    /** The count is zero exactly when the buffer is empty. */
    lemma CountAndTail()
      requires Valid()
      ensures (aggrCount == 0 <==> tail == 0) && tail % 4 == 0
    {
      assert |Records(queued)| == tail;
    }

    constructor ()
      ensures Valid() && queued == [] && fresh(buf)
    {
      buf := new Byte[MAX_AGGR_TXPKT_LEN];
      tail, aggrCount, queued := 0, 0, [];
    }

    /** memcpy to the tail. */
    method Put(bytes: Bytes)
      requires tail + |bytes| <= buf.Length
      modifies this`tail, buf
      ensures tail == old(tail) + |bytes| && buf[..tail] == old(buf[..tail]) + bytes
      ensures buf[tail..] == old(buf[tail + |bytes|..])
    {
      for i := 0 to |bytes|
        modifies buf
        invariant forall k :: 0 <= k < buf.Length && !(tail <= k < tail + i) ==> buf[k] == old(buf[k])
        invariant forall k :: 0 <= k < i ==> buf[tail + k] == bytes[k]
      {
        buf[tail + i] := bytes[i];
      }
      tail := tail + |bytes|;
    }

    /** aicwf_sdio_aggr.  The code does not look whether there is room; `pastEnd` says that it copies past the end of
        the buffer, and then nothing is said about what memory holds. */
    method Append(desc: Bytes, payload: Bytes) returns (pastEnd: bool)
      requires Valid() && desc != []
      modifies this, buf
      ensures pastEnd <==> old(tail) + |Record(desc + payload)| > buf.Length
      ensures !pastEnd ==>
                && Valid() && queued == old(queued) + [desc + payload] && aggrCount == old(aggrCount) + 1
                && tail == old(tail) + |Record(desc + payload)|
    {
      hide Records;
      pastEnd := tail + |Record(desc + payload)| > buf.Length;
      hide Record, Padded;
      if pastEnd {
        return;
      }
      CountAndTail();
      RecordsNext(queued, desc + payload);
      assert |Records(queued)| == tail;
      Write(desc, payload);
      queued, aggrCount := queued + [desc + payload], aggrCount + 1;
      assert |Records(queued)| == tail;
    }

    /** The length in the header is written last, when the padding is known. */
    method Write(desc: Bytes, payload: Bytes)
      requires tail % 4 == 0 && tail + |Record(desc + payload)| <= buf.Length
      modifies this`tail, buf
      ensures tail <= buf.Length && buf[..tail] == old(buf[..tail]) + Record(desc + payload)
    {
      hide Header, Padded;
      var start, len := tail, |desc| + |payload|;
      ghost var records, h: Bytes := buf[..tail], [len % 256, len / 256 % 16, 0x01, 0x00];
      ghost var p := Padded(desc + payload);
      Put([len % 256, len / 256 % 16, 0x01, 0x00]);
      PutBody(desc, payload);
      assert buf[..tail] == records + h + p == records + (h + p);
      Patch(start, tail - start - 4, records, h, p);
    }

    method PutBody(desc: Bytes, payload: Bytes)
      requires tail % 4 == 0 && tail + |Padded(desc + payload)| <= buf.Length
      modifies this`tail, buf
      ensures tail == old(tail) + |Padded(desc + payload)|
      ensures buf[..tail] == old(buf[..tail]) + Padded(desc + payload)
    {
      hide Padded;
      ghost var before, len := buf[..tail], |desc| + |payload|;
      PaddedIs(desc, payload);
      Put(desc);
      Put(payload);
      Pad();
      Together(before, desc, payload, Padded(desc + payload)[len..]);
    }

    /** Fill up to a multiple of four. */
    method Pad()
      requires tail + (4 - tail % 4) % 4 <= buf.Length
      modifies this`tail, buf
      ensures tail == old(tail) + (4 - old(tail) % 4) % 4
      ensures buf[..tail] == old(buf[..tail]) + seq((4 - old(tail) % 4) % 4, _ => 0)
    {
      if tail % 4 != 0 {
        var alignLen := (tail + 3) / 4 * 4 - tail;
        Put(seq(alignLen, _ => 0));
      }
    }

    method Patch(start: nat, len: nat, ghost records: Bytes, ghost h: Bytes, ghost p: Bytes)
      requires start == |records| && |p| == len && |h| == 4 && h[2..] == [0x01, 0x00]
      requires tail <= buf.Length && buf[..tail] == records + (h + p)
      modifies buf
      ensures buf[..tail] == records + (Header(len) + p)
    {
      ghost var b := buf[..tail];
      buf[start], buf[start + 1] := len % 256, len / 256 % 16;
      Patched(records, h, p, b, buf[..tail]);
    }

    /** aicwf_sdio_aggrbuf_reset. */
    method Reset()
      requires buf.Length == MAX_AGGR_TXPKT_LEN
      modifies this
      ensures Valid() && queued == []
    {
      tail, aggrCount, queued := 0, 0, [];
    }

    /** aicwf_sdio_aggr_send and aicwf_sdio_txpkt.  The four zero bytes always fit the last block, so that the
        transfer has just the blocks that the records touch. */
    method SendAll() returns (wire: Bytes)
      requires Valid()
      modifies this, buf
      ensures Valid() && queued == []
      ensures |wire| == Blocks(|Records(old(queued))|)
      ensures exists stale :: wire == Transfer(Records(old(queued)), stale)
      ensures Decode(wire) == AllPadded(old(queued)) <==> AllFit(old(queued))
    {
      hide Records, Decode, AllPadded, Transfer, Ends, Blocks;
      CountAndTail();
      LastBlock(tail);
      ghost var records := buf[..tail];
      var currLen := tail;
      if currLen % TXPKT_BLOCKSIZE != 0 {
        Put([0, 0, 0, 0]);
      }
      var len := Blocks(tail);
      wire := buf[..len];
      ghost var stale := buf[tail..len];
      IsTransfer(records, buf[..tail], wire, stale);
      TransferEnds(records, stale);
      ghost var z :| Ends(z) && Transfer(records, stale) == records + z;
      ComesBackExactlyWhen(queued, z);
      Reset();
    }
  }

  lemma IsTransfer(records: Bytes, used: Bytes, wire: Bytes, stale: Bytes)
    requires used == if |records| % TXPKT_BLOCKSIZE == 0 then records else records + [0, 0, 0, 0]
    requires used <= wire && stale == wire[|used|..] && (|records| % TXPKT_BLOCKSIZE == 0 ==> stale == [])
    ensures wire == Transfer(records, stale)
  {
    assert wire == used + stale;
  }

  lemma Patched(records: Bytes, h: Bytes, p: Bytes, was: Bytes, now: Bytes)
    requires was == records + (h + p) && |h| == 4 && h[2..] == [0x01, 0x00]
    requires now == was[|records| := |p| % 256][|records| + 1 := |p| / 256 % 16]
    ensures now == records + (Header(|p|) + p)
  {
    assert h[2] == h[2..][0] && h[3] == h[2..][1];
  }

  lemma Together(before: Bytes, desc: Bytes, payload: Bytes, pad: Bytes)
    ensures before + desc + payload + pad == before + (desc + payload + pad)
  {
  }

  lemma PaddedIs(desc: Bytes, payload: Bytes)
    ensures var len := |desc| + |payload|;
            var pad := Padded(desc + payload)[len..];
            pad == seq((4 - len % 4) % 4, _ => 0) && Padded(desc + payload) == desc + payload + pad
  {
  }
}
