/**
 * The output buffer of the kernel-module fuzzer (fuzzer/km_fuzzer/km_fuzzer.c;
 * fuzzer/km_fuzzer/main.c carries the same code): a singly linked list of
 * chunks of `LINK_SIZE` bytes that `write_chars` appends to, and the two
 * `/proc` read handlers that serve the buffered output and the run status
 * to user space, advancing the reader's file position.
 *
 * The logical content of the list is the filled part `buffer[0..index)` of
 * every chunk, concatenated in list order. The representation invariant
 * keeps every chunk but the last one full, so byte `p` of the content sits
 * in chunk `p / LINK_SIZE` at offset `p % LINK_SIZE`.
 */
module KernelBuffer {
  import opened Text
  import FuzzerCore

  /** `LINK_SIZE` */
  const LinkSize: nat := 1000

  /** `status_et` */
  datatype Status = Running | Done

  /** The text the status file serves. */
  function StatusMessage(s: Status): (msg: string)
    ensures EndsWith(msg, "\n") && '\n' !in msg[..|msg| - 1]
  {
    if s == Running then "running\n" else "done\n"
  }

  /** The concatenation of the chunks' filled parts, in list order. */
  function Concat(pieces: seq<seq<char>>): seq<char> {
    if |pieces| == 0 then [] else Concat(pieces[..|pieces| - 1]) + pieces[|pieces| - 1]
  }

  /** Every chunk but the last is full. */
  ghost predicate AllButLastFull(pieces: seq<seq<char>>) {
    forall k :: 0 <= k < |pieces| - 1 ==> |pieces[k]| == LinkSize
  }

  /** With every chunk but the last full, chunk `q` holds the content from
      `q * LINK_SIZE` on, and the content is as long as the full chunks plus
      the filled part of the last one. */
  lemma {:induction false} ChunkPlacement(pieces: seq<seq<char>>, q: nat)
    requires AllButLastFull(pieces) && q < |pieces|
    ensures |Concat(pieces)| == (|pieces| - 1) * LinkSize + |pieces[|pieces| - 1]|
    ensures q * LinkSize + |pieces[q]| <= |Concat(pieces)|
    ensures Concat(pieces)[q * LinkSize..q * LinkSize + |pieces[q]|] == pieces[q]
  {
    var n := |pieces|;
    var prefix := pieces[..n - 1];
    assert Concat(pieces) == Concat(prefix) + pieces[n - 1];
    if n == 1 {
      assert Concat(prefix) == [];
    } else {
      assert AllButLastFull(prefix);
      ChunkPlacement(prefix, if q < n - 1 then q else n - 2);
      assert |Concat(prefix)| == (n - 1) * LinkSize;
      if q < n - 1 {
        assert prefix[q] == pieces[q];
        assert Concat(prefix)[q * LinkSize..q * LinkSize + |pieces[q]|] == pieces[q];
      }
    }
  }

  /** Appending a byte to the last chunk appends it to the content. */
  lemma ConcatPushLast(pieces: seq<seq<char>>, c: char)
    requires |pieces| > 0
    ensures Concat(pieces[|pieces| - 1 := pieces[|pieces| - 1] + [c]]) == Concat(pieces) + [c]
  {
    var p := pieces[|pieces| - 1 := pieces[|pieces| - 1] + [c]];
    assert p[..|p| - 1] == pieces[..|pieces| - 1];
  }

  /** A new empty chunk after a full last one keeps every chunk but the
      last full. */
  lemma FullThenEmpty(pieces: seq<seq<char>>)
    requires AllButLastFull(pieces) && |pieces| > 0 && |pieces[|pieces| - 1]| == LinkSize
    ensures AllButLastFull(pieces + [[]])
  {
  }

  /** Adding an empty chunk leaves the content as it is. */
  lemma ConcatEmptyChunk(pieces: seq<seq<char>>)
    ensures Concat(pieces + [[]]) == Concat(pieces)
  {
    assert (pieces + [[]])[..|pieces|] == pieces;
  }

  /** The read at `pos` within its chunk: when the chunk's filled part
      ends before offset `pos % LINK_SIZE`, `pos` is past the content; and
      otherwise the bytes from that offset on, at most `count` of them, are
      the content from `pos` up to the end of the chunk or `count` bytes,
      whichever comes first. */
  lemma ChunkRead(pieces: seq<seq<char>>, pos: nat, count: nat)
    requires AllButLastFull(pieces) && pos / LinkSize < |pieces|
    requires |pieces[|pieces| - 1]| <= LinkSize
    ensures var piece, o := pieces[pos / LinkSize], pos % LinkSize;
            |piece| < o ==> pos >= |Concat(pieces)|
    ensures var piece, o := pieces[pos / LinkSize], pos % LinkSize;
            o <= |piece| && pos >= |Concat(pieces)| ==> FuzzerCore.Min(|piece| - o, count) == 0
    ensures var piece, o := pieces[pos / LinkSize], pos % LinkSize;
            var m := FuzzerCore.Min(|piece| - o, count);
            o <= |piece| && pos < |Concat(pieces)| ==>
              m == FuzzerCore.Min(count, ChunkEnd(pos, |Concat(pieces)|) - pos) &&
              pos + m <= |Concat(pieces)| && piece[o..o + m] == Concat(pieces)[pos..pos + m]
  {
    var j, o := pos / LinkSize, pos % LinkSize;
    var piece := pieces[j];
    ChunkPlacement(pieces, j);
    assert pos == j * LinkSize + o;
    if j < |pieces| - 1 {
      assert |piece| == LinkSize;
    }
    if o <= |piece| && pos < |Concat(pieces)| {
      SliceWithin(Concat(pieces), j * LinkSize, piece, o, FuzzerCore.Min(|piece| - o, count));
    }
  }

  /** A slice of a piece that sits at `a` in `c` sits at `a` plus its
      offset. */
  lemma SliceWithin(c: seq<char>, a: nat, piece: seq<char>, o: nat, m: nat)
    requires a + |piece| <= |c| && c[a..a + |piece|] == piece && o + m <= |piece|
    ensures c[a + o..a + o + m] == piece[o..o + m]
  {
    var here, there := c[a + o..a + o + m], piece[o..o + m];
    forall k | 0 <= k < m ensures here[k] == there[k] {
      assert c[a + o + k] == c[a..a + |piece|][o + k];
    }
    assert here == there;
  }

  /** A slice inside the first `idx` elements is the same slice of that
      prefix. */
  lemma SliceOfPrefix(a: seq<char>, idx: nat, start: nat, m: nat)
    requires start + m <= idx <= |a|
    ensures a[start..start + m] == a[..idx][start..start + m]
  {
  }

  /** Appending the next element of `arr` extends the prefix taken. */
  lemma ExtendPrefix(start: seq<char>, arr: seq<char>, i: nat)
    requires i < |arr|
    ensures (start + arr[..i]) + [arr[i]] == start + arr[..i + 1]
  {
    assert arr[..i + 1] == arr[..i] + [arr[i]];
  }

  /** The end of the chunk holding position `pos` of a content of length
      `len`: the next multiple of `LINK_SIZE`, or the end of the content. */
  function ChunkEnd(pos: nat, len: nat): (e: nat)
    requires pos < len
    ensures pos < e <= len
    ensures (e - 1) / LinkSize == pos / LinkSize
  {
    FuzzerCore.Min((pos / LinkSize + 1) * LinkSize, len)
  }

  /** What a reader collects who keeps reading the output file from `pos`,
      `count` bytes at a time, until a read serves nothing: each read
      serves what `proc_output_read` serves at the current position. */
  function ReadFrom(content: seq<char>, count: nat, pos: nat): seq<char>
    requires count >= 1
    decreases |content| - pos
  {
    if pos >= |content| then []
    else
      var n := FuzzerCore.Min(count, ChunkEnd(pos, |content|) - pos);
      content[pos..pos + n] + ReadFrom(content, count, pos + n)
  }

  /** Such a reader gets exactly the content from `pos` on: no byte is
      skipped or served twice, however small `count` is. */
  lemma {:induction false} ReadFromCollectsRest(content: seq<char>, count: nat, pos: nat)
    requires count >= 1 && pos <= |content|
    ensures ReadFrom(content, count, pos) == content[pos..]
    decreases |content| - pos
  {
    if pos < |content| {
      var n := FuzzerCore.Min(count, ChunkEnd(pos, |content|) - pos);
      assert ReadFrom(content, count, pos) == content[pos..pos + n] + ReadFrom(content, count, pos + n);
      ReadFromCollectsRest(content, count, pos + n);
      assert content[pos..] == content[pos..pos + n] + content[pos + n..];
    }
  }

  /** `link_buf_st`: one chunk of the list. */
  class Link {
    var next: Link?
    var index: nat
    const buffer: array<char>

    /** `new_link()`: an empty chunk, zero-filled, with no successor. */
    constructor ()
      ensures next == null && index == 0
      ensures fresh(buffer) && buffer.Length == LinkSize
      ensures forall k :: 0 <= k < LinkSize ==> buffer[k] == '\0'
    {
      next := null;
      index := 0;
      buffer := new char[LinkSize](_ => '\0');
    }
  }

  /** The global output list: its head `link_buf`. */
  class OutputList {
    var linkBuf: Link?
    ghost var chunks: seq<Link>
    ghost var pieces: seq<seq<char>>
    ghost var Repr: set<object>

    ghost predicate Valid()
      reads this, Repr
    {
      this in Repr &&
      |pieces| == |chunks| &&
      (forall k :: 0 <= k < |chunks| ==> chunks[k] in Repr && chunks[k].buffer in Repr) &&
      (linkBuf == null <==> chunks == []) &&
      (chunks != [] ==> linkBuf == chunks[0] && chunks[|chunks| - 1].next == null) &&
      (forall k :: 0 <= k < |chunks| - 1 ==> chunks[k].next == chunks[k + 1]) &&
      (forall i, j :: 0 <= i < j < |chunks| ==> chunks[i] != chunks[j] && chunks[i].buffer != chunks[j].buffer) &&
      (forall k :: 0 <= k < |chunks| ==> chunks[k].buffer.Length == LinkSize && chunks[k].index == |pieces[k]| <= LinkSize) &&
      (forall k :: 0 <= k < |chunks| ==> chunks[k].buffer[..chunks[k].index] == pieces[k]) &&
      AllButLastFull(pieces)
    }

    /** Everything written so far. */
    ghost function Contents(): seq<char>
      reads this
    {
      Concat(pieces)
    }

    /** At load time nothing is buffered. */
    constructor ()
      ensures Valid() && fresh(Repr)
      ensures linkBuf == null && Contents() == []
    {
      linkBuf := null;
      chunks := [];
      pieces := [];
      Repr := {this};
    }

    /** `write_chars(arr, amount)`: the first `amount` bytes of `arr` are
        appended to the content, filling the last chunk and adding new
        chunks as each one fills up. */
    method WriteChars(arr: seq<char>, amount: nat)
      requires Valid() && amount <= |arr|
      modifies Repr
      ensures Valid() && fresh(Repr - old(Repr))
      ensures Contents() == old(Contents()) + arr[..amount]
    {
      if linkBuf == null {
        var head := NewHead();
      }
      var link := LastLink();
      ghost var start := Contents();
      for i := 0 to amount
        invariant Valid() && fresh(Repr - old(Repr))
        invariant |chunks| > 0 && link == chunks[|chunks| - 1]
        invariant Contents() == start + arr[..i]
      {
        link := WriteByte(link, arr[i]);
        ExtendPrefix(start, arr, i);
      }
    }

    /** The body of the loop in `write_chars`: move on to a new chunk when
        the last one is full, then store the byte. */
    method WriteByte(link: Link, c: char) returns (last: Link)
      requires Valid() && chunks != [] && link == chunks[|chunks| - 1]
      modifies Repr
      ensures Valid() && fresh(Repr - old(Repr))
      ensures chunks != [] && last == chunks[|chunks| - 1]
      ensures Contents() == old(Contents()) + [c]
    {
      last := link;
      if last.index == LinkSize {
        last := AppendLink(last);
      }
      Push(last, c);
    }

    /** The first chunk of an empty list, created by `new_link()`. */
    method NewHead() returns (head: Link)
      requires Valid() && linkBuf == null
      modifies this
      ensures Valid() && fresh(Repr - old(Repr))
      ensures linkBuf == head && chunks == [head] && Contents() == old(Contents())
    {
      head := new Link();
      linkBuf := head;
      chunks := [head];
      pieces := [[]];
      Repr := Repr + {head, head.buffer};
      SingleChunkValid();
    }

    /** Work that leaves every object of the list alone leaves the list
        well formed and its content as it was. */
    twostate lemma Untouched()
      requires old(Valid()) && unchanged(old(Repr))
      ensures Valid() && Repr == old(Repr) && Contents() == old(Contents())
    {
    }

    /** A list of one empty chunk is well formed and holds nothing. */
    lemma SingleChunkValid()
      requires this in Repr && linkBuf != null && chunks == [linkBuf] && pieces == [[]]
      requires linkBuf in Repr && linkBuf.buffer in Repr
      requires linkBuf.next == null && linkBuf.index == 0 && linkBuf.buffer.Length == LinkSize
      ensures Valid() && Contents() == []
    {
      assert linkBuf.buffer[..linkBuf.index] == [];
      assert Concat(pieces) == Concat([]) + [];
    }

    /** The walk from the head to the chunk without successor. */
    method LastLink() returns (link: Link)
      requires Valid() && chunks != []
      ensures link == chunks[|chunks| - 1]
    {
      link := linkBuf;
      ghost var t := 0;
      while link.next != null
        invariant 0 <= t < |chunks| && link == chunks[t]
        invariant t < |chunks| - 1 ==> link.next == chunks[t + 1]
        decreases |chunks| - t
      {
        link := link.next;
        t := t + 1;
      }
    }

    /** A full last chunk gets a fresh successor from `new_link()`, which
        becomes the last chunk; the content does not change. */
    method AppendLink(link: Link) returns (added: Link)
      requires Valid() && chunks != [] && link == chunks[|chunks| - 1] && link.index == LinkSize
      modifies this, link
      ensures Valid() && fresh(added) && fresh(added.buffer)
      ensures Repr == old(Repr) + {added, added.buffer}
      ensures chunks == old(chunks) + [added] && added.index == 0
      ensures Contents() == old(Contents())
    {
      added := new Link();
      link.next := added;
      ConcatEmptyChunk(pieces);
      FullThenEmpty(pieces);
      chunks := chunks + [added];
      pieces := pieces + [[]];
      Repr := Repr + {added, added.buffer};
    }

    /** One step of the loop in `write_chars`: store a byte at `index` of
        the last chunk, which has room for it, and advance `index`. */
    method Push(link: Link, c: char)
      requires Valid() && |chunks| > 0 && link == chunks[|chunks| - 1] && link.index < LinkSize
      modifies link, link.buffer, this
      ensures Valid() && Repr == old(Repr) && chunks == old(chunks)
      ensures Contents() == old(Contents()) + [c]
    {
      var last := |chunks| - 1;
      link.buffer[link.index] := c;
      link.index := link.index + 1;
      ConcatPushLast(pieces, c);
      pieces := pieces[last := pieces[last] + [c]];
      assert link.buffer[..link.index] == pieces[last];
      assert forall k :: 0 <= k < last ==> chunks[k].buffer != link.buffer && chunks[k] != link;
    }

    /** `write_string(str)`: the bytes of `str` up to its terminating zero. */
    method WriteString(str: string)
      requires Valid()
      modifies Repr
      ensures Valid() && fresh(Repr - old(Repr))
      ensures Contents() == old(Contents()) + str[..Strlen(str)]
    {
      WriteChars(str, Strlen(str));
    }

    /** `free_links()`: walk the list from its head, dropping each chunk,
        until the head is `NULL`. */
    method FreeLinks()
      requires Valid()
      modifies this
      ensures Valid() && linkBuf == null && Contents() == []
    {
      ghost var t := 0;
      while linkBuf != null
        invariant chunks == old(chunks) && t <= |chunks|
        invariant t < |chunks| ==> linkBuf == chunks[t]
        invariant t == |chunks| ==> linkBuf == null
        invariant forall k :: 0 <= k < |chunks| - 1 ==> chunks[k].next == chunks[k + 1]
        invariant chunks != [] ==> chunks[|chunks| - 1].next == null
        decreases |chunks| - t
      {
        linkBuf := linkBuf.next;
        t := t + 1;
      }
      chunks := [];
      pieces := [];
      Repr := {this};
    }

    /** `proc_output_read(file, buf, count, pos)`: nothing while the fuzzer
        runs; afterwards the bytes from `pos` on, at most `count` of them and
        never past the end of the chunk holding `pos`, with the position
        advanced by the number of bytes served. At or past the end of the
        content nothing is served and the position stays. */
    method ProcOutputRead(status: Status, count: nat, pos: nat) returns (n: nat, bytes: seq<char>, newPos: nat)
      requires Valid()
      ensures |bytes| == n && newPos == pos + n
      ensures status == Running || pos >= |Contents()| ==> n == 0
      ensures status == Done && pos < |Contents()| ==>
        n == FuzzerCore.Min(count, ChunkEnd(pos, |Contents()|) - pos) && bytes == Contents()[pos..pos + n]
    {
      n, bytes, newPos := 0, [], pos;
      if status == Running {
        return;
      }
      var jumps := pos / LinkSize;
      var link := ChunkAt(jumps);
      if link == null {
        PastTheEnd(pos);
        return;
      }
      var startIndex := pos % LinkSize;
      ChunkRead(pieces, pos, count);
      if link.index < startIndex {
        return;
      }
      var toRead := FuzzerCore.Min(link.index - startIndex, count);
      bytes := link.buffer[startIndex..startIndex + toRead];
      SliceOfPrefix(link.buffer[..], link.index, startIndex, toRead);
      n := toRead;
      newPos := pos + toRead;
    }

    /** The walk of `jumps` steps along `next` from the head: the chunk at
        that index, or `NULL` when the list is shorter. */
    method ChunkAt(jumps: nat) returns (link: Link?)
      requires Valid()
      ensures jumps < |chunks| ==> link == chunks[jumps]
      ensures jumps >= |chunks| ==> link == null
    {
      link := linkBuf;
      for i := 0 to jumps
        invariant i <= |chunks|
        invariant i < |chunks| ==> link == chunks[i]
        invariant i == |chunks| ==> link == null
      {
        if link == null {
          return;
        }
        link := link.next;
      }
    }

    /** A position whose chunk lies beyond the list is past the content. */
    lemma PastTheEnd(pos: nat)
      requires Valid() && |chunks| <= pos / LinkSize
      ensures pos >= |Contents()|
    {
      if |chunks| > 0 {
        ChunkPlacement(pieces, |chunks| - 1);
      }
    }
  }

  /** `proc_status_read(file, buf, count, pos)`: the status text from
      `pos` on, at most `count` bytes of it, with the position advanced by
      the number of bytes served; nothing once `pos` reaches its end. */
  method ProcStatusRead(status: Status, count: nat, pos: nat) returns (n: nat, bytes: seq<char>, newPos: nat)
    ensures |bytes| == n && newPos == pos + n
    ensures pos >= |StatusMessage(status)| ==> n == 0
    ensures pos < |StatusMessage(status)| ==>
      n == FuzzerCore.Min(count, |StatusMessage(status)| - pos) && bytes == StatusMessage(status)[pos..pos + n]
  {
    var actualMsg := StatusMessage(status);
    var len := |actualMsg|;
    n, bytes, newPos := 0, [], pos;
    if pos >= len {
      return;
    }
    var c := count;
    if c > len - pos {
      c := len - pos;
    }
    bytes := actualMsg[pos..pos + c];
    n := c;
    newPos := pos + c;
  }
}
