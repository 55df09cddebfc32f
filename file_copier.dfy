/** BoxLaunch/ProgressReportingFileCopier.cs: a copy that reads the source
    in blocks through a 1 MiB buffer, writes each block to a newly created
    destination, and lets a progress callback cancel after any block. The
    callback's answer for the k-th block is the input `cancel(k)`. */
module FileCopier {
  import opened Base

  const BufferSize: nat := 1024 * 1024

  /** Sum of the block sizes. */
  function Sum(s: seq<nat>): nat {
    if s == [] then 0 else s[0] + Sum(s[1..])
  }

  lemma {:induction false} SumAppend(s: seq<nat>, n: nat)
    ensures Sum(s + [n]) == Sum(s) + n
  {
    if s != [] {
      assert (s + [n])[1..] == s[1..] + [n];
      SumAppend(s[1..], n);
    }
  }

  /** The sizes of the blocks the loop writes, starting at offset `total`
      with block number `k`: each read takes what is left of the file up to
      the buffer's length, and the loop stops at the end of the file or
      right after a block the callback cancels. */
  function Blocks(len: nat, total: nat, k: nat, cancel: nat -> bool): seq<nat>
    requires total <= len
    decreases len - total
  {
    if total == len then []
    else
      var n := Min(len - total, BufferSize);
      if cancel(k) then [n] else [n] + Blocks(len, total + n, k + 1, cancel)
  }

  lemma BlocksStep(len: nat, total: nat, k: nat, cancel: nat -> bool)
    requires total < len
    ensures var n := Min(len - total, BufferSize);
      Blocks(len, total, k, cancel) == if cancel(k) then [n] else [n] + Blocks(len, total + n, k + 1, cancel)
  {
  }

  /** Every block holds at least one byte and at most the buffer's length,
      and together they never run past the end of the file. */
  lemma {:induction false} BlocksBounded(len: nat, total: nat, k: nat, cancel: nat -> bool)
    requires total <= len
    ensures forall i :: 0 <= i < |Blocks(len, total, k, cancel)| ==> 1 <= Blocks(len, total, k, cancel)[i] <= BufferSize
    ensures Sum(Blocks(len, total, k, cancel)) <= len - total
    decreases len - total
  {
    if total < len {
      var n := Min(len - total, BufferSize);
      BlocksBounded(len, total + n, k + 1, cancel);
      var r := Blocks(len, total, k, cancel);
      var rest := Blocks(len, total + n, k + 1, cancel);
      if cancel(k) {
        assert r == [n];
        assert Sum(r) == n + Sum([]);
      } else {
        assert r == [n] + rest;
        assert r[1..] == rest;
        forall i | 1 <= i < |r| ensures 1 <= r[i] <= BufferSize {
          assert r[i] == rest[i - 1];
        }
      }
    }
  }

  /** Without a cancellation the blocks cover the whole rest of the file. */
  lemma {:induction false} UncancelledCopiesAll(len: nat, total: nat, k: nat, cancel: nat -> bool)
    requires total <= len
    requires forall j :: k <= j ==> !cancel(j)
    ensures Sum(Blocks(len, total, k, cancel)) == len - total
    decreases len - total
  {
    if total < len {
      UncancelledCopiesAll(len, total + Min(len - total, BufferSize), k + 1, cancel);
    }
  }

  /** A cancellation at block j means no block after it is written. */
  lemma {:induction false} CancelStopsAfterBlock(len: nat, total: nat, k: nat, cancel: nat -> bool, j: nat)
    requires total <= len && k <= j && cancel(j)
    ensures |Blocks(len, total, k, cancel)| <= j - k + 1
    decreases len - total
  {
    if total < len && !cancel(k) {
      CancelStopsAfterBlock(len, total + Min(len - total, BufferSize), k + 1, cancel, j);
    }
  }

  /** Blocks are as large as the buffer until the last one. */
  lemma {:induction false} BlocksFillBuffer(len: nat, total: nat, k: nat, cancel: nat -> bool)
    requires total <= len
    ensures forall i :: 0 <= i < |Blocks(len, total, k, cancel)| - 1 ==> Blocks(len, total, k, cancel)[i] == BufferSize
    decreases len - total
  {
    if total < len {
      var n := Min(len - total, BufferSize);
      BlocksFillBuffer(len, total + n, k + 1, cancel);
      if !cancel(k) {
        var rest := Blocks(len, total + n, k + 1, cancel);
        var r := Blocks(len, total, k, cancel);
        assert r == [n] + rest;
        if total + n == len {
          assert rest == [];
        } else {
          assert n == BufferSize;
        }
        forall i | 0 <= i < |r| - 1 ensures r[i] == BufferSize {
          if i > 0 {
            assert r[i] == rest[i - 1];
          }
        }
      }
    }
  }

  /** One turn of the block loop: the blocks written so far followed by
      those still to come stay the whole sequence of blocks. */
  lemma AppendBlock(blocks: seq<nat>, full: seq<nat>, len: nat, total: nat, k: nat, cancel: nat -> bool)
    requires total < len && blocks + Blocks(len, total, k, cancel) == full
    ensures var n := Min(len - total, BufferSize);
      && (cancel(k) ==> blocks + [n] == full)
      && (!cancel(k) ==> (blocks + [n]) + Blocks(len, total + n, k + 1, cancel) == full)
  {
    var n := Min(len - total, BufferSize);
    BlocksStep(len, total, k, cancel);
    if !cancel(k) {
      assert blocks + ([n] + Blocks(len, total + n, k + 1, cancel)) == (blocks + [n]) + Blocks(len, total + n, k + 1, cancel);
    }
  }

  lemma PrefixExtend(src: seq<byte>, t: nat, n: nat)
    requires t + n <= |src|
    ensures src[..t] + src[t..t + n] == src[..t + n]
  {
  }

  /** What one turn of the block loop keeps: the destination stays the
      source's prefix of totalBytes bytes, totalBytes the sum of the blocks,
      and the blocks a prefix of the whole sequence. */
  lemma TransferStep(src: seq<byte>, cancel: nat -> bool, blocks: seq<nat>, full: seq<nat>, dest: seq<byte>, totalBytes: nat, k: nat, n: nat)
    requires totalBytes <= |src| && dest == src[..totalBytes] && totalBytes == Sum(blocks)
    requires n == Min(|src| - totalBytes, BufferSize) && n > 0
    requires blocks + Blocks(|src|, totalBytes, k, cancel) == full
    ensures totalBytes + n <= |src| && dest + src[totalBytes..totalBytes + n] == src[..totalBytes + n]
    ensures Sum(blocks + [n]) == totalBytes + n
    ensures cancel(k) ==> blocks + [n] == full
    ensures !cancel(k) ==> (blocks + [n]) + Blocks(|src|, totalBytes + n, k + 1, cancel) == full
  {
    AppendBlock(blocks, full, |src|, totalBytes, k, cancel);
    SumAppend(blocks, n);
    PrefixExtend(src, totalBytes, n);
  }

  /** What Copy leaves: the destination's bytes, `totalBytes` and the size
      of each block written. */
  datatype Copied = Copied(dest: seq<byte>, totalBytes: nat, blocks: seq<nat>)

  class ProgressReportingFileCopier {
    var sourceFilePath: string
    var destFilePath: string
    /** How often OnComplete has fired. */
    var completions: nat

    constructor (source: string, dest: string)
      ensures sourceFilePath == source && destFilePath == dest && completions == 0
    {
      sourceFilePath := source;
      destFilePath := dest;
      completions := 0;
    }

    /** source.Read(buffer, 0, buffer.Length) at offset `pos`. */
    static method Read(src: seq<byte>, pos: nat, buffer: array<byte>) returns (n: nat)
      requires pos <= |src|
      modifies buffer
      ensures n == Min(|src| - pos, buffer.Length)
      ensures buffer[..n] == src[pos..pos + n]
    {
      n := Min(|src| - pos, buffer.Length);
      for i := 0 to n
        invariant buffer[..i] == src[pos..pos + i]
      {
        buffer[i] := src[pos + i];
        assert buffer[..i + 1] == buffer[..i] + [buffer[i]];
      }
    }

    /** The block loop of Copy. */
    static method Transfer(src: seq<byte>, cancel: nat -> bool) returns (dest: seq<byte>, totalBytes: nat, blocks: seq<nat>)
      ensures blocks == Blocks(|src|, 0, 0, cancel)
      ensures totalBytes == Sum(blocks) <= |src| && dest == src[..totalBytes]
    {
      var buffer := new byte[BufferSize];
      dest := [];
      blocks := [];
      totalBytes := 0;
      var k: nat := 0;
      var n := Read(src, totalBytes, buffer);
      ghost var full := Blocks(|src|, 0, 0, cancel);
      while n > 0
        invariant totalBytes <= |src| && dest == src[..totalBytes] && totalBytes == Sum(blocks)
        invariant n == Min(|src| - totalBytes, BufferSize) && buffer[..n] == src[totalBytes..totalBytes + n]
        invariant blocks + Blocks(|src|, totalBytes, k, cancel) == full
        decreases |src| - totalBytes
      {
        TransferStep(src, cancel, blocks, full, dest, totalBytes, k, n);
        blocks := blocks + [n];
        dest := dest + buffer[..n];
        totalBytes := totalBytes + n;
        if cancel(k) {
          assert blocks == full;
          break;
        }
        k := k + 1;
        n := Read(src, totalBytes, buffer);
      }
      if n == 0 {
        assert Blocks(|src|, totalBytes, k, cancel) == [];
        assert blocks + [] == blocks;
      }
    }

    /** Copy(): opening a missing source throws FileNotFoundException and
        creating an existing destination throws IOException, in both cases
        before OnComplete. Otherwise the destination receives the blocks
        `Blocks` describes and OnComplete fires once, cancelled or not. */
    method Copy(source: Option<seq<byte>>, destExists: bool, cancel: nat -> bool) returns (r: Result<Copied>)
      modifies this
      ensures sourceFilePath == old(sourceFilePath) && destFilePath == old(destFilePath)
      ensures source.None? ==> r == Err(FileNotFound) && completions == old(completions)
      ensures source.Some? && destExists ==> r == Err(IOError) && completions == old(completions)
      ensures source.Some? && !destExists ==>
        var blocks := Blocks(|source.value|, 0, 0, cancel);
        && completions == old(completions) + 1
        && r.Ok? && r.value.blocks == blocks && r.value.totalBytes == Sum(blocks) <= |source.value|
        && r.value.dest == source.value[..r.value.totalBytes]
    {
      if source.None? {
        return Err(FileNotFound);
      }
      if destExists {
        return Err(IOError);
      }
      var dest, totalBytes, blocks := Transfer(source.value, cancel);
      completions := completions + 1;
      r := Ok(Copied(dest, totalBytes, blocks));
    }
  }

  /** Without cancellation the destination is the source, byte for byte. */
  lemma UncancelledCopyIsExact(src: seq<byte>, cancel: nat -> bool)
    requires forall j :: !cancel(j)
    ensures var total := Sum(Blocks(|src|, 0, 0, cancel));
      total <= |src| && src[..total] == src
  {
    UncancelledCopiesAll(|src|, 0, 0, cancel);
  }

  /** Cancelling on the first block leaves at most one buffer's worth. */
  lemma FirstBlockCancelled(src: seq<byte>, cancel: nat -> bool)
    requires cancel(0)
    ensures Sum(Blocks(|src|, 0, 0, cancel)) == Min(|src|, BufferSize)
  {
    if |src| > 0 {
      assert Blocks(|src|, 0, 0, cancel) == [Min(|src|, BufferSize)];
      assert [Min(|src|, BufferSize)][1..] == [];
    }
  }
}
