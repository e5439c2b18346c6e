/** Bounded sinks for a response body (devices.go, cve_index.go), fed by `io.Copy`, which hands on what each read
    returned and stops at the first error. Bytes are characters below 256. */
module StreamSinks {

  /** What a destination does with one write. `Short` breaks the contract of `io.Writer`: less than all, without an
      error. */
  datatype Answer = Takes | Fails(upTo: nat) | Short(upTo: nat)

  datatype WriteError = NoError | HeadFull | TooLarge | Destination

  function Least(a: int, b: int): (r: int)
    ensures r <= a && r <= b && (r == a || r == b)
  {
    if a < b then a else b
  }

  class Writer {
    var data: string
    var plan: seq<Answer>   // the answers to the coming writes; after them everything is taken

    constructor (plan: seq<Answer>)
      ensures data == "" && this.plan == plan
    {
      data, this.plan := "", plan;
    }

    ghost predicate TakesAll()
      reads this
    {
      forall a | a in plan :: a == Takes
    }

    ghost predicate KeepsContract()
      reads this
    {
      forall a | a in plan :: !a.Short?
    }

    method Write(p: string) returns (n: nat, err: WriteError)
      modifies this
      ensures n <= |p| && data == old(data) + p[..n]
      ensures err == NoError || err == Destination
      ensures old(KeepsContract()) ==> KeepsContract() && (err == NoError ==> n == |p|)
      ensures old(TakesAll()) ==> TakesAll() && err == NoError && n == |p|
    {
      n, err := |p|, NoError;
      if plan != [] {
        var answer := plan[0];
        assert answer in plan && forall a | a in plan[1..] :: a in plan;
        if !answer.Takes? {
          n := if answer.upTo < |p| then answer.upTo else |p|;
          err := if answer.Fails? then Destination else NoError;
        }
        plan := plan[1..];
      }
      data := data + p[..n];
    }
  }

  /** Passes on up to `remaining` bytes, then fails so that the copy stops. */
  class HeadWriter {
    const dst: Writer
    var remaining: int
    var written: int

    constructor (dst: Writer, remaining: int)
      ensures this.dst == dst && this.remaining == remaining && written == 0
    {
      this.dst, this.remaining, written := dst, remaining, 0;
    }

    method Write(p: string) returns (n: nat, err: WriteError)
      modifies this, dst
      ensures n <= |p| && n <= Least(|p|, if old(remaining) < 0 then 0 else old(remaining))
      ensures dst.data == old(dst.data) + p[..n]
      ensures written == old(written) + n && remaining == old(remaining) - n
      ensures err == NoError ==> n == |p|
      ensures err != TooLarge
      ensures old(dst.KeepsContract()) ==>
                dst.KeepsContract() && (err == HeadFull ==> (|p| > n || p == "") && n >= old(remaining))
      ensures old(dst.TakesAll()) ==> dst.TakesAll() && err != Destination
    {
      if remaining <= 0 {
        return 0, HeadFull;
      }
      var chunk := p;
      if |chunk| > remaining {
        chunk := chunk[..remaining];
      }
      n, err := dst.Write(chunk);
      written := written + n;
      remaining := remaining - n;
      if err != NoError {
        return n, err;
      }
      if n < |p| {
        return n, HeadFull;
      }
    }
  }

  /** Refuses a write that would pass the budget. */
  class LimitedWriter {
    const dst: Writer
    var remaining: int

    constructor (dst: Writer, remaining: int)
      ensures this.dst == dst && this.remaining == remaining
    {
      this.dst, this.remaining := dst, remaining;
    }

    method Write(p: string) returns (n: nat, err: WriteError)
      modifies this, dst
      ensures n <= |p| && dst.data == old(dst.data) + p[..n] && remaining == old(remaining) - n
      ensures err == TooLarge <==> |p| > old(remaining)
      ensures err == TooLarge ==> n == 0
      ensures err != HeadFull
      ensures old(dst.TakesAll()) ==>
                dst.TakesAll() && (err == NoError <==> |p| <= old(remaining)) && (err == NoError ==> n == |p|)
    {
      if |p| > remaining {
        return 0, TooLarge;
      }
      n, err := dst.Write(p);
      remaining := remaining - n;
    }
  }

  // ----- Copying a body -----

  /** A response body: what its reads return, and whether the last one fails instead of ending. A read may return
      nothing. */
  datatype Body = Body(chunks: seq<string>, failed: bool)

  function Concat(chunks: seq<string>): string {
    if chunks == [] then "" else chunks[0] + Concat(chunks[1..])
  }

  /** Where chunk `i` begins. */
  function Offset(chunks: seq<string>, i: nat): nat
    requires i <= |chunks|
  {
    if i == 0 then 0 else |chunks[0]| + Offset(chunks[1..], i - 1)
  }

  lemma {:induction false} ChunkInPlace(chunks: seq<string>, i: nat)
    requires i < |chunks|
    ensures Offset(chunks, i + 1) == Offset(chunks, i) + |chunks[i]| <= |Concat(chunks)|
    ensures Concat(chunks)[Offset(chunks, i)..Offset(chunks, i + 1)] == chunks[i]
  {
    if i == 0 {
    } else {
      ChunkInPlace(chunks[1..], i - 1);
    }
  }

  lemma {:induction false} OffsetOfEnd(chunks: seq<string>)
    ensures Offset(chunks, |chunks|) == |Concat(chunks)|
  {
    if chunks == [] {
    } else {
      OffsetOfEnd(chunks[1..]);
    }
  }

  /** `data` is what was there, then the first `k` bytes of the body. */
  ghost predicate Holds(data: string, start: string, all: string, k: int) {
    0 <= k <= |all| && data == start + all[..k]
  }

  lemma SliceStep(all: string, at: nat, length: nat, n: nat)
    requires n <= length && at + length <= |all|
    ensures all[..at + n] == all[..at] + all[at..at + length][..n]
  {
  }

  /** Part of the next chunk added. */
  lemma HoldsMore(data: string, start: string, chunks: seq<string>, i: nat, n: nat)
    requires i < |chunks| && n <= |chunks[i]| && Holds(data, start, Concat(chunks), Offset(chunks, i))
    ensures Holds(data + chunks[i][..n], start, Concat(chunks), Offset(chunks, i) + n)
  {
    var all, at := Concat(chunks), Offset(chunks, i);
    ChunkInPlace(chunks, i);
    SliceStep(all, at, |chunks[i]|, n);
    assert data + chunks[i][..n] == start + (all[..at] + chunks[i][..n]);
  }

  datatype CopyError = Copied | WriteFailed(error: WriteError) | ShortWrite | ReadFailed

  /** `io.Copy` into a fresh head writer. Whatever the destination does, it holds the first `written` bytes of the body
      and never more than `max`; how the body was cut into chunks is not seen in the result. */
  method CopyHead(body: Body, head: HeadWriter, max: nat) returns (err: CopyError)
    requires head.remaining == max && head.written == 0
    modifies head, head.dst
    ensures Holds(head.dst.data, old(head.dst.data), Concat(body.chunks), head.written) && head.written <= max
    ensures err == Copied ==> head.written == |Concat(body.chunks)| && !body.failed
    ensures old(head.dst.KeepsContract()) && err == WriteFailed(HeadFull) ==>
              |Concat(body.chunks)| > max == head.written
    ensures old(head.dst.TakesAll()) ==>
              var length := |Concat(body.chunks)|;
              && head.written == Least(max, length)
              && err == if length > max then WriteFailed(HeadFull) else if body.failed then ReadFailed else Copied
  {
    ghost var start, all := head.dst.data, Concat(body.chunks);
    assert Holds(start, start, all, 0);
    for i := 0 to |body.chunks|
      invariant head.written == Offset(body.chunks, i) <= max && head.remaining == max - head.written
      invariant Holds(head.dst.data, start, all, head.written)
      invariant old(head.dst.KeepsContract()) ==> head.dst.KeepsContract()
      invariant old(head.dst.TakesAll()) ==> head.dst.TakesAll()
    {
      var chunk := body.chunks[i];
      ChunkInPlace(body.chunks, i);
      if chunk != "" {
        ghost var data := head.dst.data;
        var n, failed := head.Write(chunk);
        HoldsMore(data, start, body.chunks, i, n);
        if failed != NoError {
          return WriteFailed(failed);
        }
        if n != |chunk| {
          return ShortWrite;
        }
      }
    }
    OffsetOfEnd(body.chunks);
    return if body.failed then ReadFailed else Copied;
  }

  datatype Download = Refused | Done(written: int, truncated: bool, failed: bool)

  /** `DownloadFileHead`, from the response body on. With a destination that takes everything: exactly the first
      min(max, length) bytes, truncated exactly when the body is longer, failed exactly when the body breaks off before.
      */
  method DownloadHead(body: Body, maxBytes: int, dst: Writer) returns (r: Download)
    modifies dst
    ensures maxBytes <= 0 ==> r == Refused && dst.data == old(dst.data)
    ensures maxBytes > 0 ==>
              var length := |Concat(body.chunks)|;
              && r.Done? && Holds(dst.data, old(dst.data), Concat(body.chunks), r.written) && r.written <= maxBytes
              && !(r.truncated && r.failed)
              && (!r.truncated && !r.failed ==> r.written == length)
              && (old(dst.KeepsContract()) && r.truncated ==> length > maxBytes && r.written == maxBytes)
              && (old(dst.TakesAll()) ==>
                    r == Done(Least(maxBytes, length), length > maxBytes, length <= maxBytes && body.failed))
  {
    if maxBytes <= 0 {
      return Refused;
    }
    var head := new HeadWriter(dst, maxBytes);
    var err := CopyHead(body, head, maxBytes);
    if err == WriteFailed(HeadFull) {
      return Done(head.written, true, false);
    }
    return Done(head.written, false, err != Copied);
  }

  /** `io.Copy` into a limited writer: the budget is never passed, and with a buffer behind it the copy succeeds exactly
      when the body is whole and fits; else it stops after the whole chunks that fit. */
  method CopyLimited(body: Body, limited: LimitedWriter, budget: nat) returns (err: CopyError)
    requires limited.remaining == budget
    modifies limited, limited.dst
    ensures limited.remaining >= 0
    ensures Holds(limited.dst.data, old(limited.dst.data), Concat(body.chunks), budget - limited.remaining)
    ensures err == Copied ==> budget - limited.remaining == |Concat(body.chunks)| && !body.failed
    ensures err == WriteFailed(TooLarge) ==>
              exists i :: 0 <= i < |body.chunks| && budget - limited.remaining == Offset(body.chunks, i) &&
                Offset(body.chunks, i + 1) > budget
    ensures old(limited.dst.TakesAll()) ==>
              err == if |Concat(body.chunks)| > budget then WriteFailed(TooLarge) else if body.failed then ReadFailed
                else Copied
  {
    ghost var start, all := limited.dst.data, Concat(body.chunks);
    assert Holds(start, start, all, 0);
    for i := 0 to |body.chunks|
      invariant Offset(body.chunks, i) <= budget && limited.remaining == budget - Offset(body.chunks, i)
      invariant Holds(limited.dst.data, start, all, Offset(body.chunks, i))
      invariant old(limited.dst.TakesAll()) ==> limited.dst.TakesAll()
    {
      var chunk := body.chunks[i];
      ChunkInPlace(body.chunks, i);
      if chunk != "" {
        ghost var data := limited.dst.data;
        var n, failed := limited.Write(chunk);
        HoldsMore(data, start, body.chunks, i, n);
        if failed != NoError {
          return WriteFailed(failed);
        }
        if n != |chunk| {
          return ShortWrite;
        }
      }
    }
    OffsetOfEnd(body.chunks);
    return if body.failed then ReadFailed else Copied;
  }
}
