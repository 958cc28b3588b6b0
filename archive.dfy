/** The archive the hide run builds and the extract run walks:
    BE32(count) ‖ (BE32(len(record)) ‖ record)*, each record being what
    `prepare_file_data` produced for one file. */
module Archive {
  import opened Common

  /** Every record's length goes through `to_bytes(4, 'big')` without raising. */
  predicate Fits(rs: seq<seq<byte>>)
  {
    forall i | 0 <= i < |rs| :: |rs[i]| < Two32
  }

  /** (BE32(len(r)) ‖ r) for each record, in order. */
  function Frames(rs: seq<seq<byte>>): seq<byte>
    requires Fits(rs)
  {
    if |rs| == 0 then [] else Be32(|rs[0]|) + rs[0] + Frames(rs[1..])
  }

  /** What the combining step of `_hide_files` yields: the archive, or the
      OverflowError of a count or a record length of 2^32 or more. */
  function Packed(rs: seq<seq<byte>>): Result<seq<byte>>
  {
    if |rs| < Two32 && Fits(rs) then Ok(Be32(|rs|) + Frames(rs)) else Err(OverflowMessage)
  }

  lemma {:induction false} FramesAppend(a: seq<seq<byte>>, b: seq<seq<byte>>)
    requires Fits(a) && Fits(b)
    ensures Fits(a + b) && Frames(a + b) == Frames(a) + Frames(b)
    decreases |a|
  {
    if |a| > 0 {
      assert (a + b)[1..] == a[1..] + b;
      FramesAppend(a[1..], b);
    } else {
      assert a + b == b;
    }
  }

  /** The combining loop of `_hide_files` (invisiovault.py:294-297). */
  method Pack(records: seq<seq<byte>>) returns (r: Result<seq<byte>>)
    ensures r == Packed(records)
  {
    if |records| >= Two32 {
      return Err(OverflowMessage);
    }
    var combined := Be32(|records|);
    var i := 0;
    while i < |records|
      invariant 0 <= i <= |records| && Fits(records[..i])
      invariant combined == Be32(|records|) + Frames(records[..i])
    {
      var data := records[i];
      if |data| >= Two32 {
        return Err(OverflowMessage);
      }
      assert records[..i + 1] == records[..i] + [data];
      assert Frames([data]) == Be32(|data|) + data + Frames([]);
      FramesAppend(records[..i], [data]);
      combined := combined + (Be32(|data|) + data);
      i := i + 1;
    }
    assert records[..i] == records;
    return Ok(combined);
  }

  /** `int.from_bytes(data[:4], 'big')`: the count the extractor reads. */
  function DeclaredCount(data: seq<byte>): nat
  {
    BeValue(Slice(data, 0, 4))
  }

  /** `data[n:]`, the tail the walk has not read yet. It is `Slice(data, n,
      |data|)` (`DropIsSlice`), written with one case split because every
      step of the walk's proofs unfolds it. */
  function Drop(data: seq<byte>, n: nat): (r: seq<byte>)
    ensures |r| <= |data|
  {
    if n <= |data| then data[n..] else []
  }

  lemma DropIsSlice(data: seq<byte>, n: nat)
    ensures Drop(data, n) == Slice(data, n, |data|)
  {
  }

  /** The records the extraction loop visits from round i of num on, when
      `tail` is what lies from the walk's offset on: nothing once all num
      rounds are done or the tail is empty; otherwise a length read from the
      (up to) four bytes at its head and the clamped slice of that length
      after them, then the walk goes on past that slice in the next round. */
  function RecordsIn(tail: seq<byte>, i: nat, num: nat): seq<seq<byte>>
    decreases num - i
  {
    if num <= i || |tail| == 0 then []
    else
      var size := BeValue(Slice(tail, 0, 4));
      [Slice(tail, 4, 4 + size)] + RecordsIn(Drop(tail, 4 + size), i + 1, num)
  }

  /** The records `_extract_files` visits, in order. */
  function Unpack(data: seq<byte>): seq<seq<byte>>
  {
    RecordsIn(Drop(data, 4), 0, DeclaredCount(data))
  }

  /** Walking frames from round i of num, with rounds enough left for all
      of them, visits every framed record, in order. */
  lemma {:induction false} RecordsInFrames(rs: seq<seq<byte>>, i: nat, num: nat)
    requires Fits(rs) && i + |rs| <= num
    ensures RecordsIn(Frames(rs), i, num) == rs
    decreases |rs|
  {
    if |rs| > 0 {
      var r, rest := rs[0], rs[1..];
      FrameAtHead(r, Frames(rest));
      assert Frames(rs) == Be32(|r|) + r + Frames(rest);
      RecordsInFrames(rest, i + 1, num);
      assert rs == [r] + rest;
    }
  }

  /** The frame at the head of a tail reads back as its length, its record
      and what follows. */
  lemma FrameAtHead(r: seq<byte>, rest: seq<byte>)
    requires |r| < Two32
    ensures var t := Be32(|r|) + r + rest;
      BeValue(Slice(t, 0, 4)) == |r| && Slice(t, 4, 4 + |r|) == r && Drop(t, 4 + |r|) == rest
  {
    var t := Be32(|r|) + r + rest;
    assert t[..4] == Be32(|r|);
    assert t[4..4 + |r|] == r;
    assert t[4 + |r|..] == rest;
    BeValueOfBe32(|r|);
  }

  /** One round of the walk by offset: at an offset inside the data, with
      a round left, the record is the slice after the length read there, and
      the walk goes on past it in the next round. */
  lemma WalkStep(data: seq<byte>, offset: nat, i: nat, num: nat, size: nat)
    requires offset < |data| && i < num && size == BeValue(Slice(data, offset, offset + 4))
    ensures RecordsIn(Drop(data, offset), i, num) ==
      [Slice(data, offset + 4, offset + 4 + size)] + RecordsIn(Drop(data, offset + 4 + size), i + 1, num)
  {
    var tail := Drop(data, offset);
    assert Slice(tail, 0, 4) == Slice(data, offset, offset + 4);
    assert Slice(tail, 4, 4 + size) == Slice(data, offset + 4, offset + 4 + size);
    assert Drop(tail, 4 + size) == Drop(data, offset + 4 + size);
  }

  /** At or past the end of the data, or with every round done, the walk
      visits nothing more. */
  lemma WalkEnd(data: seq<byte>, offset: nat, i: nat, num: nat)
    requires offset >= |data| || num <= i
    ensures RecordsIn(Drop(data, offset), i, num) == []
  {
  }

  /** Round trip: unpacking a packed archive visits every record, in order. */
  lemma UnpackPack(rs: seq<seq<byte>>)
    requires Packed(rs).Ok?
    ensures DeclaredCount(Packed(rs).value) == |rs|
    ensures Unpack(Packed(rs).value) == rs
  {
    var data := Be32(|rs|) + Frames(rs);
    assert Slice(data, 0, 4) == Be32(|rs|) by {
      assert data[..4] == Be32(|rs|);
    }
    BeValueOfBe32(|rs|);
    assert Drop(data, 4) == Frames(rs);
    RecordsInFrames(rs, 0, |rs|);
  }

  /** The walk never visits more records than rounds remain, and every
      record it visits but the last takes at least four bytes of the tail. */
  lemma {:induction false} RecordsInBound(tail: seq<byte>, i: nat, num: nat)
    requires i <= num
    ensures i + |RecordsIn(tail, i, num)| <= num
    ensures |RecordsIn(tail, i, num)| == 0 || 4 * (|RecordsIn(tail, i, num)| - 1) < |tail|
    decreases num - i
  {
    if i < num && |tail| > 0 {
      var size := BeValue(Slice(tail, 0, 4));
      var next := Drop(tail, 4 + size);
      var later := RecordsIn(next, i + 1, num);
      assert |RecordsIn(tail, i, num)| == 1 + |later|;
      RecordsInBound(next, i + 1, num);
      assert |later| == 0 || |next| + 4 <= |tail|;
    }
  }

  /** Unpacking stops on its own: it yields at most the declared count of
      records and at most one record per four bytes after the count, and
      nothing at all from a count of 0 or from data of four bytes or less. */
  lemma UnpackBound(data: seq<byte>)
    ensures |Unpack(data)| <= DeclaredCount(data)
    ensures |Unpack(data)| == 0 || 4 * |Unpack(data)| < |data|
    ensures DeclaredCount(data) == 0 || |data| <= 4 ==> Unpack(data) == []
    ensures DeclaredCount(data) < Two32
  {
    BeValue4Bound(Slice(data, 0, 4));
    RecordsInBound(Drop(data, 4), 0, DeclaredCount(data));
  }
}
