/** Line files: the chunks ReadBytes('\n') returns, shared by the file index and the sorted index. */
module Lines {
  import opened Bytes

  const NEWLINE: byte := 10

  /** The key of a line, or None for a line to be skipped. Deterministic by being a function. */
  type KeyFunc = Bytes -> Option<Bytes>

  /** A line's payload, without its newline, and where it starts. */
  datatype Line = Line(off: nat, payload: Bytes)

  /** Just past the next newline at or after off, or the end of the content. */
  function ChunkEnd(content: Bytes, off: nat): (end: nat)
    requires off <= |content|
    ensures off <= end <= |content| && (off < |content| ==> off < end)
    decreases |content| - off
  {
    if off == |content| then off
    else if content[off] == NEWLINE then off + 1
    else ChunkEnd(content, off + 1)
  }

  function Payload(chunk: Bytes): Bytes {
    if chunk != [] && chunk[|chunk| - 1] == NEWLINE then chunk[..|chunk| - 1] else chunk
  }

  function LineAt(content: Bytes, off: nat): Line
    requires off <= |content|
  {
    Line(off, Payload(content[off..ChunkEnd(content, off)]))
  }

  /** The key a scan indexes a line under: the line is not empty and neither is its key. */
  function KeyOf(keyFunc: KeyFunc, payload: Bytes): Option<Bytes> {
    if payload == [] then None else
    match keyFunc(payload)
    case None => None
    case Some(key) => if key == [] then None else Some(key)
  }

  /** The last line of a file, from off on, with this key. */
  function LastLine(content: Bytes, keyFunc: KeyFunc, key: Bytes, off: nat): Option<Bytes>
    requires off <= |content|
    decreases |content| - off
  {
    if off == |content| then None else
    var later := LastLine(content, keyFunc, key, ChunkEnd(content, off));
    var payload := LineAt(content, off).payload;
    if later.Some? then later
    else if KeyOf(keyFunc, payload) == Some(key) then Some(payload)
    else None
  }

  lemma {:induction false} ChunkEndIs(content: Bytes, off: nat)
    requires off <= |content|
    ensures var end := ChunkEnd(content, off);
            && (forall i :: off <= i < end - 1 ==> content[i] != NEWLINE)
            && (end < |content| ==> off < end && content[end - 1] == NEWLINE)
    decreases |content| - off
  {
    if off < |content| && content[off] != NEWLINE { ChunkEndIs(content, off + 1); }
  }

  /** The chunk without a newline is the last. */
  lemma LastChunk(content: Bytes, off: nat)
    requires off <= |content|
    ensures var end := ChunkEnd(content, off); var chunk := content[off..end];
            chunk == [] || chunk[|chunk| - 1] != NEWLINE ==> end == |content|
  {
    ChunkEndIs(content, off);
    hide ChunkEnd;
  }

  // ----- lines are what lies between newline bytes ------------------------------------------

  /** The payloads a scan from off on sees. */
  function Payloads(content: Bytes, off: nat): (ls: seq<Bytes>)
    requires off <= |content|
    decreases |content| - off
  {
    if off == |content| then [] else [LineAt(content, off).payload] + Payloads(content, ChunkEnd(content, off))
  }

  /** Lines, each followed by a newline byte. */
  function Joined(ls: seq<Bytes>): Bytes {
    if ls == [] then [] else ls[0] + [10] + Joined(ls[1..])
  }

  predicate Unbroken(ls: seq<Bytes>) { forall i :: 0 <= i < |ls| ==> 10 !in ls[i] }

  lemma {:induction false} ChunkEndAt(content: Bytes, off: nat, end: nat)
    requires off < end <= |content| && forall i :: off <= i < end - 1 ==> content[i] != 10
    requires content[end - 1] == 10 || end == |content|
    ensures ChunkEnd(content, off) == end
    decreases end - off
  {
    if off < end - 1 { ChunkEndAt(content, off + 1, end); }
  }

  lemma LineEndsAt(content: Bytes, off: nat, line: Bytes)
    requires off + |line| < |content| && content[off..off + |line|] == line && content[off + |line|] == 10 && 10 !in line
    ensures ChunkEnd(content, off) == off + |line| + 1 && LineAt(content, off).payload == line
  {
    var end := off + |line| + 1;
    forall i | off <= i < end - 1 ensures content[i] != 10 {
      assert line[i - off] == content[i];
    }
    ChunkEndAt(content, off, end);
    assert content[off..end] == line + [10];
  }

  lemma LastLineEnds(content: Bytes, off: nat)
    requires off < |content| && 10 !in content[off..]
    ensures ChunkEnd(content, off) == |content| && LineAt(content, off).payload == content[off..]
  {
    var rest := content[off..];
    forall i | off <= i < |content| ensures content[i] != 10 {
      assert rest[i - off] == content[i];
    }
    ChunkEndAt(content, off, |content|);
    assert rest[|rest| - 1] != 10;
  }

  lemma {:induction false} PayloadsAfter(pre: Bytes, ls: seq<Bytes>, last: Bytes)
    requires Unbroken(ls) && 10 !in last
    ensures Payloads(pre + (Joined(ls) + last), |pre|) == ls + if last == [] then [] else [last]
    decreases |ls|
  {
    hide ChunkEnd, LineAt;
    var content := pre + (Joined(ls) + last);
    if ls == [] {
      assert content[|pre|..] == last;
      if last != [] { LastLineEnds(content, |pre|); }
    } else {
      var more := ls[1..];
      var pre' := pre + ls[0] + [10];
      assert content == pre' + (Joined(more) + last);
      LineEndsAt(content, |pre|, ls[0]);
      PayloadsAfter(pre', more, last);
      assert [ls[0]] + more == ls;
    }
  }

  /** A scan of lines with newline bytes between them sees those lines, the last one with or without its newline. */
  lemma PayloadsAre(ls: seq<Bytes>, last: Bytes)
    requires Unbroken(ls) && 10 !in last
    ensures Payloads(Joined(ls) + last, 0) == ls + if last == [] then [] else [last]
  {
    hide Payloads;
    PayloadsAfter([], ls, last);
    assert [] + (Joined(ls) + last) == Joined(ls) + last;
  }

  /** Every content is of that form. */
  lemma {:induction false} EveryContentSplits(content: Bytes) returns (ls: seq<Bytes>, last: Bytes)
    ensures Unbroken(ls) && 10 !in last && content == Joined(ls) + last
    decreases |content|
  {
    if content == [] {
      ls, last := [], [];
    } else {
      var front, more := [content[0]], content[1..];
      var ls', last' := EveryContentSplits(more);
      if content[0] == 10 {
        ls, last := [[]] + ls', last';
        assert ls[1..] == ls';
      } else if ls' == [] {
        ls, last := [], front + last';
      } else {
        ls, last := [front + ls'[0]] + ls'[1..], last';
        assert ls[1..] == ls'[1..];
        assert Joined(ls) == front + Joined(ls');
      }
      assert content == front + more;
    }
  }

  // ----- the last line of a key ---------------------------------------------------------------

  /** The line is not empty and has this key, which is not empty either. */
  predicate Keyed(keyFunc: KeyFunc, line: Bytes, key: Bytes) {
    |line| > 0 && |key| > 0 && keyFunc(line) == Some(key)
  }

  /** Line i is the last of these with the key. */
  ghost predicate LastKeyed(ls: seq<Bytes>, i: int, keyFunc: KeyFunc, key: Bytes) {
    0 <= i < |ls| && Keyed(keyFunc, ls[i], key) && forall j :: i < j < |ls| ==> !Keyed(keyFunc, ls[j], key)
  }

  lemma KeyOfIff(keyFunc: KeyFunc, line: Bytes, key: Bytes)
    ensures KeyOf(keyFunc, line) == Some(key) <==> Keyed(keyFunc, line, key)
  {}

  lemma NextLast(ls: seq<Bytes>, i: int, keyFunc: KeyFunc, key: Bytes)
    requires |ls| > 0
    ensures i >= 0 ==> (LastKeyed(ls, i + 1, keyFunc, key) <==> LastKeyed(ls[1..], i, keyFunc, key))
    ensures LastKeyed(ls, 0, keyFunc, key)
            <==> Keyed(keyFunc, ls[0], key) && forall j :: 0 <= j < |ls[1..]| ==> !Keyed(keyFunc, ls[1..][j], key)
  {
    hide Keyed;
    var rest := ls[1..];
    forall j | 1 <= j < |ls| ensures ls[j] == rest[j - 1] {}
    forall j | 0 <= j < |rest| ensures rest[j] == ls[j + 1] {}
  }

  lemma {:induction false} LastLineAt(content: Bytes, keyFunc: KeyFunc, key: Bytes, off: nat, ls: seq<Bytes>) returns (i: int)
    requires off <= |content| && ls == Payloads(content, off)
    ensures match LastLine(content, keyFunc, key, off)
            case Some(line) => LastKeyed(ls, i, keyFunc, key) && ls[i] == line
            case None => forall j :: 0 <= j < |ls| ==> !Keyed(keyFunc, ls[j], key)
    decreases |content| - off
  {
    hide ChunkEnd, LineAt, KeyOf, Keyed;
    i := 0;
    if off < |content| {
      var end := ChunkEnd(content, off);
      var rest := Payloads(content, end);
      var k := LastLineAt(content, keyFunc, key, end, rest);
      KeyOfIff(keyFunc, ls[0], key);
      assert ls[1..] == rest;
      NextLast(ls, k, keyFunc, key);
      if LastLine(content, keyFunc, key, end).Some? {
        i := k + 1;
      } else {
        forall j | 0 < j < |ls| ensures !Keyed(keyFunc, ls[j], key) { assert ls[j] == rest[j - 1]; }
      }
    }
  }

  lemma OnlyLast(ls: seq<Bytes>, i: int, j: int, keyFunc: KeyFunc, key: Bytes)
    requires LastKeyed(ls, i, keyFunc, key) && LastKeyed(ls, j, keyFunc, key)
    ensures i == j
  {}

  /** The last line of a key is the last line the scan sees that is not empty and has it. */
  lemma LastLineIff(content: Bytes, keyFunc: KeyFunc, key: Bytes, line: Bytes, ls: seq<Bytes>)
    requires ls == Payloads(content, 0)
    ensures LastLine(content, keyFunc, key, 0) == Some(line) <==> exists i :: LastKeyed(ls, i, keyFunc, key) && ls[i] == line
    ensures LastLine(content, keyFunc, key, 0).None? <==> forall i :: 0 <= i < |ls| ==> !Keyed(keyFunc, ls[i], key)
  {
    hide LastLine, Payloads, Keyed;
    var i := LastLineAt(content, keyFunc, key, 0, ls);
    if LastLine(content, keyFunc, key, 0).Some? {
      forall j | LastKeyed(ls, j, keyFunc, key) ensures j == i { OnlyLast(ls, i, j, keyFunc, key); }
    }
  }
}
