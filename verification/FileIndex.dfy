/** The file index: an append-only line file and the in-memory map of its last lines. */
module FileIndex {
  import opened Bytes
  import opened Lines

  /** Where a line's payload is. */
  datatype Loc = Loc(off: nat, len: nat)

  type Index = map<Bytes, Loc>

  // ----- what a rebuild scan gives ---------------------------------------------------------

  /** Index one line, if the key function accepts it. */
  function Apply(m: Index, keyFunc: KeyFunc, off: nat, payload: Bytes): Index {
    match KeyOf(keyFunc, payload)
    case None => m
    case Some(key) => m[key := Loc(off, |payload|)]
  }

  function RebuiltFrom(m: Index, content: Bytes, keyFunc: KeyFunc, off: nat): Index
    requires off <= |content|
    decreases |content| - off
  {
    if off == |content| then m
    else RebuiltFrom(Apply(m, keyFunc, off, LineAt(content, off).payload), content, keyFunc, ChunkEnd(content, off))
  }

  /** The index of a file: every line in order, the last one winning. */
  function Rebuilt(content: Bytes, keyFunc: KeyFunc): Index {
    RebuiltFrom(map[], content, keyFunc, 0)
  }

  predicate Terminated(content: Bytes) {
    content == [] || content[|content| - 1] == NEWLINE
  }

  /** A stretch of the file between line ends. */
  predicate WholeLine(content: Bytes, loc: Loc) {
    && loc.off + loc.len <= |content|
    && (loc.off == 0 || content[loc.off - 1] == NEWLINE)
    && (loc.off + loc.len == |content| || content[loc.off + loc.len] == NEWLINE)
    && NEWLINE !in content[loc.off..loc.off + loc.len]
  }

  /** Every entry is a whole line with that key. */
  ghost predicate LinesWithKeys(content: Bytes, keyFunc: KeyFunc, m: Index) {
    forall k :: k in m ==> WholeLine(content, m[k])
                           && KeyOf(keyFunc, content[m[k].off..m[k].off + m[k].len]) == Some(k)
  }

  // ----- appending ---------------------------------------------------------------------------

  lemma {:induction false} ChunkEndAppend(a: Bytes, b: Bytes, off: nat)
    requires off < |a| && Terminated(a)
    ensures ChunkEnd(a + b, off) == ChunkEnd(a, off)
    decreases |a| - off
  {
    if a[off] != NEWLINE { ChunkEndAppend(a, b, off + 1); }
  }

  lemma {:induction false} ChunkEndSealed(a: Bytes, off: nat)
    requires off < |a|
    ensures var end := ChunkEnd(a, off);
            ChunkEnd(a + [NEWLINE], off) == if a[end - 1] == NEWLINE then end else end + 1
    ensures var end := ChunkEnd(a, off); a[end - 1] != NEWLINE ==> end == |a|
    decreases |a| - off
  {
    if a[off] != NEWLINE && off + 1 < |a| { ChunkEndSealed(a, off + 1); }
  }

  /** A chunk with no newline, or one as its last byte. */
  predicate OneLine(b: Bytes) {
    b != [] && NEWLINE !in b[..|b| - 1]
  }

  lemma {:induction false} ChunkEndOfOneLine(a: Bytes, b: Bytes, off: nat)
    requires OneLine(b) && |a| <= off < |a + b|
    ensures ChunkEnd(a + b, off) == |a + b|
    decreases |a + b| - off
  {
    var i := off - |a|;
    if i < |b| - 1 {
      assert b[i] == b[..|b| - 1][i];
      ChunkEndOfOneLine(a, b, off + 1);
    }
  }

  lemma {:induction false} AppendLine(m: Index, a: Bytes, b: Bytes, keyFunc: KeyFunc, off: nat)
    requires off <= |a| && Terminated(a) && OneLine(b)
    ensures RebuiltFrom(m, a + b, keyFunc, off) == Apply(RebuiltFrom(m, a, keyFunc, off), keyFunc, |a|, Payload(b))
    decreases |a| - off
  {
    if off == |a| {
      ChunkEndOfOneLine(a, b, off);
      assert (a + b)[off..|a + b|] == b;
    } else {
      var end := ChunkEnd(a, off);
      ChunkEndAppend(a, b, off);
      assert (a + b)[off..end] == a[off..end];
      AppendLine(Apply(m, keyFunc, off, LineAt(a, off).payload), a, b, keyFunc, end);
    }
  }

  lemma SealedLast(a: Bytes, off: nat)
    requires off < |a| && !Terminated(a) && ChunkEnd(a, off) == |a|
    ensures ChunkEnd(a + [NEWLINE], off) == |a| + 1 && LineAt(a + [NEWLINE], off) == LineAt(a, off)
  {
    ChunkEndSealed(a, off);
    hide ChunkEnd;
    assert (a + [NEWLINE])[off..|a| + 1] == a[off..|a|] + [NEWLINE];
  }

  lemma SealedEarlier(a: Bytes, off: nat)
    requires off < |a| && ChunkEnd(a, off) < |a|
    ensures ChunkEnd(a + [NEWLINE], off) == ChunkEnd(a, off) && LineAt(a + [NEWLINE], off) == LineAt(a, off)
  {
    ChunkEndSealed(a, off);
    hide ChunkEnd;
    var end := ChunkEnd(a, off);
    assert (a + [NEWLINE])[off..end] == a[off..end];
  }

  /** Sealing a file whose last line lacks its newline changes no entry. */
  lemma {:induction false} Seal(m: Index, a: Bytes, keyFunc: KeyFunc, off: nat)
    requires off < |a| && !Terminated(a)
    ensures RebuiltFrom(m, a + [NEWLINE], keyFunc, off) == RebuiltFrom(m, a, keyFunc, off)
    decreases |a| - off
  {
    hide Apply, LineAt, ChunkEnd, Terminated;
    if ChunkEnd(a, off) == |a| {
      SealedLast(a, off);
    } else {
      SealedEarlier(a, off);
      Seal(Apply(m, keyFunc, off, LineAt(a, off).payload), a, keyFunc, ChunkEnd(a, off));
    }
  }

  // ----- what one append adds ------------------------------------------------------------------

  /** What Put writes: a newline first if the last line lacks one, then the line and its newline. */
  function Written(seal: bool, line: Bytes): (buf: Bytes)
    ensures |buf| == (if seal then 1 else 0) + |line| + 1
  {
    (if seal then [NEWLINE] else []) + line + [NEWLINE]
  }

  /** The payload a rebuild scan sees when only the first n bytes reached the file. */
  function Fragment(line: Bytes, seal: bool, n: nat): (p: Bytes)
    requires n <= |Written(seal, line)|
  {
    var sealed := if seal then 1 else 0;
    if n <= sealed then [] else Payload((line + [NEWLINE])[..n - sealed])
  }

  /** A failed write of all but the final newline leaves a fragment that is the whole line. */
  lemma WholeLineFragment(line: Bytes, seal: bool)
    requires NEWLINE !in line
    ensures Fragment(line, seal, |Written(seal, line)| - 1) == line
    ensures Fragment(line, seal, |Written(seal, line)|) == line
  {}

  lemma AppendFragment(a: Bytes, keyFunc: KeyFunc, line: Bytes, n: nat)
    requires NEWLINE !in line && n <= |Written(!Terminated(a), line)|
    ensures var seal := !Terminated(a);
            Rebuilt(a + Written(seal, line)[..n], keyFunc)
            == Apply(Rebuilt(a, keyFunc), keyFunc, |a| + if seal then 1 else 0, Fragment(line, seal, n))
  {
    hide RebuiltFrom, Payload;
    var seal := !Terminated(a);
    var buf, rest := Written(seal, line), line + [NEWLINE];
    if n == 0 {
      assert a + buf[..0] == a;
    } else if !seal {
      assert buf == rest;
      AppendRest(a, keyFunc, line, n);
    } else {
      Seal(map[], a, keyFunc, 0);
      assert buf[..n] == [NEWLINE] + rest[..n - 1];
      assert a + buf[..n] == a + [NEWLINE] + rest[..n - 1];
      if n == 1 {
        assert a + [NEWLINE] + rest[..0] == a + [NEWLINE];
      } else {
        AppendRest(a + [NEWLINE], keyFunc, line, n - 1);
      }
    }
  }

  lemma AppendRest(a: Bytes, keyFunc: KeyFunc, line: Bytes, n: nat)
    requires NEWLINE !in line && 0 < n <= |line| + 1 && Terminated(a)
    ensures Rebuilt(a + (line + [NEWLINE])[..n], keyFunc)
            == Apply(Rebuilt(a, keyFunc), keyFunc, |a|, Payload((line + [NEWLINE])[..n]))
  {
    hide RebuiltFrom, Payload, Apply;
    var part := (line + [NEWLINE])[..n];
    assert part[..n - 1] == line[..n - 1];
    AppendLine(map[], a, part, keyFunc, 0);
  }

  lemma AppendEnds(a: Bytes, line: Bytes, n: nat)
    requires NEWLINE !in line && 0 < n <= |Written(!Terminated(a), line)|
    ensures var w := Written(!Terminated(a), line)[..n];
            Terminated(a + w) <==> w[n - 1] == NEWLINE
  {}

  lemma WholeLineKept(a: Bytes, w: Bytes, loc: Loc)
    requires WholeLine(a, loc) && loc.len > 0 && (Terminated(a) || w == [] || w[0] == NEWLINE)
    ensures WholeLine(a + w, loc) && (a + w)[loc.off..loc.off + loc.len] == a[loc.off..loc.off + loc.len]
  {}

  lemma LinesKept(a: Bytes, w: Bytes, keyFunc: KeyFunc, m: Index)
    requires LinesWithKeys(a, keyFunc, m) && (Terminated(a) || w == [] || w[0] == NEWLINE)
    ensures LinesWithKeys(a + w, keyFunc, m)
  {
    hide KeyOf, WholeLine, Terminated;
    forall k | k in m
      ensures WholeLine(a + w, m[k]) && m[k].off + m[k].len <= |a + w|
      ensures KeyOf(keyFunc, (a + w)[m[k].off..m[k].off + m[k].len]) == Some(k)
    {
      LineInside(a, m[k]);
      KeyedIsNotEmpty(keyFunc, a[m[k].off..m[k].off + m[k].len]);
      WholeLineKept(a, w, m[k]);
      LineInside(a + w, m[k]);
    }
  }

  lemma LineInside(a: Bytes, loc: Loc)
    requires WholeLine(a, loc)
    ensures loc.off + loc.len <= |a|
  {}

  lemma KeyedIsNotEmpty(keyFunc: KeyFunc, payload: Bytes)
    ensures KeyOf(keyFunc, payload).Some? ==> payload != []
  {}

  lemma NewLineIsWhole(a: Bytes, line: Bytes)
    requires NEWLINE !in line
    ensures var seal := !Terminated(a); var off := |a| + if seal then 1 else 0;
            var b := a + Written(seal, line);
            WholeLine(b, Loc(off, |line|)) && b[off..off + |line|] == line
  {}

  // ----- every line of a rebuild is whole ----------------------------------------------------------

  lemma {:induction false} RebuiltLines(m: Index, content: Bytes, keyFunc: KeyFunc, off: nat)
    requires off <= |content| && (off == 0 || content[off - 1] == NEWLINE || off == |content|)
    requires LinesWithKeys(content, keyFunc, m)
    ensures LinesWithKeys(content, keyFunc, RebuiltFrom(m, content, keyFunc, off))
    decreases |content| - off
  {
    hide LinesWithKeys, Apply, ChunkEnd, LineAt;
    if off < |content| {
      ChunkEndIs(content, off);
      AppliedLine(m, content, keyFunc, off);
      RebuiltLines(Apply(m, keyFunc, off, LineAt(content, off).payload), content, keyFunc, ChunkEnd(content, off));
    }
  }

  lemma AppliedLine(m: Index, content: Bytes, keyFunc: KeyFunc, off: nat)
    requires off < |content| && (off == 0 || content[off - 1] == NEWLINE) && LinesWithKeys(content, keyFunc, m)
    ensures LinesWithKeys(content, keyFunc, Apply(m, keyFunc, off, LineAt(content, off).payload))
  {
    hide LineAt, KeyOf, LinesWithKeys, WholeLine;
    LineIsWhole(content, off);
    var p := LineAt(content, off).payload;
    if KeyOf(keyFunc, p).Some? {
      PutKeepsLines(content, keyFunc, m, KeyOf(keyFunc, p).value, Loc(off, |p|));
    }
  }

  lemma LineIsWhole(content: Bytes, off: nat)
    requires off < |content| && (off == 0 || content[off - 1] == NEWLINE)
    ensures var p := LineAt(content, off).payload;
            WholeLine(content, Loc(off, |p|)) && content[off..off + |p|] == p
  {
    ChunkEndIs(content, off);
    hide ChunkEnd;
    var end := ChunkEnd(content, off);
    var chunk, p := content[off..end], LineAt(content, off).payload;
    assert content[off..off + |p|] == p;
    forall i | 0 <= i < |p| ensures p[i] != NEWLINE {
      assert p[i] == content[off + i];
      if i == |p| - 1 && |p| == |chunk| { assert p[i] == chunk[|chunk| - 1]; }
    }
  }

  /** A rebuild indexes exactly the keys some line has, each at its last line. */
  lemma {:induction false} RebuiltIsLastLine(m: Index, content: Bytes, keyFunc: KeyFunc, key: Bytes, off: nat)
    requires off <= |content|
    ensures var r := RebuiltFrom(m, content, keyFunc, off);
            match LastLine(content, keyFunc, key, off)
            case None => (key in r <==> key in m) && (key in m ==> r[key] == m[key])
            case Some(line) => key in r && r[key].off + r[key].len <= |content|
                               && content[r[key].off..r[key].off + r[key].len] == line
    decreases |content| - off
  {
    hide ChunkEnd, Payload, KeyOf;
    if off < |content| {
      var payload, end := LineAt(content, off).payload, ChunkEnd(content, off);
      RebuiltIsLastLine(Apply(m, keyFunc, off, payload), content, keyFunc, key, end);
      PayloadInPlace(content, off);
    }
  }

  /** After opening, a key finds a line if and only if it is the last line between newline bytes that has the key. */
  lemma OpenedFindsIff(content: Bytes, keyFunc: KeyFunc, key: Bytes, line: Bytes, ls: seq<Bytes>)
    requires ls == Payloads(content, 0)
    ensures var r := Rebuilt(content, keyFunc);
            && (key in r ==> r[key].off + r[key].len <= |content|)
            && (key in r && content[r[key].off..r[key].off + r[key].len] == line
                <==> exists i :: LastKeyed(ls, i, keyFunc, key) && ls[i] == line)
  {
    hide RebuiltFrom, LastLine, Payloads, LastKeyed;
    RebuiltIsLastLine(map[], content, keyFunc, key, 0);
    LastLineIff(content, keyFunc, key, line, ls);
  }

  lemma PayloadInPlace(content: Bytes, off: nat)
    requires off < |content|
    ensures var p := LineAt(content, off).payload; off + |p| <= |content| && content[off..off + |p|] == p
  {}

  // ----- agreement with a rebuild ----------------------------------------------------------------

  /**
   * The index against the rebuilt one: they differ at keys deleted since their last Put, and at
   * strayed keys, where a failed write left a line the rebuild takes for the key's last.
   */
  ghost predicate Agrees(idx: Index, rebuilt: Index, strayed: set<Bytes>, deleted: set<Bytes>) {
    && (forall k :: k in deleted ==> k !in idx)
    && (forall k :: k !in strayed ==> (k in idx <==> k in rebuilt && k !in deleted) && (k in idx ==> idx[k] == rebuilt[k]))
    && (forall k :: k in strayed ==> k in rebuilt && (k in idx ==> idx[k] != rebuilt[k]))
  }

  /** The index is a rebuild minus the deleted keys exactly when every strayed key is deleted. */
  lemma AgreesExactly(idx: Index, rebuilt: Index, strayed: set<Bytes>, deleted: set<Bytes>)
    requires Agrees(idx, rebuilt, strayed, deleted)
    ensures idx == rebuilt - deleted <==> strayed <= deleted
  {}

  // ----- how one operation moves the agreement ---------------------------------------------------

  lemma DeleteAgrees(idx: Index, r: Index, strayed: set<Bytes>, deleted: set<Bytes>, key: Bytes)
    requires Agrees(idx, r, strayed, deleted)
    ensures Agrees(idx - {key}, r, strayed, deleted + {key})
  {}

  lemma PutAgrees(idx: Index, r: Index, strayed: set<Bytes>, deleted: set<Bytes>, key: Bytes, loc: Loc)
    requires Agrees(idx, r, strayed, deleted)
    ensures Agrees(idx[key := loc], r[key := loc], strayed - {key}, deleted - {key})
  {}

  lemma StrayAgrees(idx: Index, r: Index, strayed: set<Bytes>, deleted: set<Bytes>, key: Bytes, loc: Loc)
    requires Agrees(idx, r, strayed, deleted) && (key in idx ==> idx[key] != loc)
    ensures Agrees(idx, r[key := loc], strayed + {key}, deleted)
  {}

  lemma SameAgrees(r: Index)
    ensures Agrees(r, r, {}, {})
  {}

  datatype PutResult = NoLineKey | InvalidLine | WriteFailed | Ok

  datatype GetResult = EmptyKey | NotFound | ReadError | Found(line: Bytes)

  class FileIndex {
    const keyFunc: KeyFunc
    var file: Bytes
    var size: nat
    var unterminated: bool
    var idx: Index
    ghost var strayed: set<Bytes>
    ghost var deleted: set<Bytes>

    ghost predicate Valid()
      reads this
    {
      && keyFunc([]).None? && size == |file| && unterminated == !Terminated(file)
      && LinesWithKeys(file, keyFunc, idx)
      && Agrees(idx, Rebuilt(file, keyFunc), strayed, deleted)
    }

    /** OpenFileIndex on a file with any content. */
    constructor (content: Bytes, keyFunc: KeyFunc)
      requires keyFunc([]).None?
      ensures Valid() && file == content && this.keyFunc == keyFunc && idx == Rebuilt(content, keyFunc)
      ensures strayed == {} && deleted == {}
    {
      this.keyFunc := keyFunc;
      file, size, unterminated, idx, strayed, deleted := content, 0, false, map[], {}, {};
      new;
      Rebuild();
    }

    /** The scan of the whole file. */
    method Rebuild()
      requires idx == map[] && keyFunc([]).None? && strayed == {} && deleted == {}
      modifies this`size, this`unterminated, this`idx
      ensures Valid() && idx == Rebuilt(file, keyFunc)
    {
      hide ChunkEnd, LinesWithKeys, Agrees, KeyOf, RebuiltFrom, Rebuilt, Terminated;
      RebuildStarts(file, keyFunc);
      var off := 0;
      while true
        invariant off <= |file| && Terminated(file[..off])
        invariant RebuiltFrom(idx, file, keyFunc, off) == Rebuilt(file, keyFunc)
        decreases |file| - off, off == |file|
      {
        var chunk := file[off..ChunkEnd(file, off)];
        var line := Payload(chunk);
        var terminated := chunk != [] && chunk[|chunk| - 1] == NEWLINE;
        RebuildStep(idx, file, keyFunc, off);
        var key := KeyOf(keyFunc, line);
        if key.Some? {
          idx := idx[key.value := Loc(off, |line|)];
        }
        ghost var start := off;
        off := off + |chunk|;
        ChunkEnds(file, start, off);
        if !terminated {
          size := off;
          unterminated := |chunk| > 0;
          break;
        }
      }
      RebuildDone(idx, file, keyFunc);
      NothingIndexed(file, keyFunc);
      RebuiltLines(map[], file, keyFunc, 0);
      SameAgrees(idx);
    }

    /**
     * Put, when WriteAt writes n bytes of the buffer and reports failure or not. Only a failed
     * write whose fragment the key function accepts leaves the index behind a rebuild.
     */
    method Put(line: Bytes, n: nat, failed: bool) returns (r: PutResult)
      requires Valid()
      requires n <= |Written(unterminated, line)| && (n < |Written(unterminated, line)| ==> failed)
      modifies this
      ensures Valid()
      ensures r == if keyFunc(line).None? || |keyFunc(line).value| == 0 then NoLineKey
                   else if 10 in line then InvalidLine
                   else if failed then WriteFailed
                   else Ok
      ensures r.NoLineKey? || r.InvalidLine? ==> unchanged(this)
      ensures r.WriteFailed? || r.Ok? ==>
                var sealed := old(file) != [] && old(file[|file| - 1]) != 10;
                n <= |(if sealed then [10] else []) + line + [10]|
                && file == old(file) + ((if sealed then [10] else []) + line + [10])[..n]
      ensures r.Ok? ==> n == old(if unterminated then 1 else 0) + |line| + 1 && KeyOf(keyFunc, line) == keyFunc(line)
      ensures r.Ok? ==> KeyOf(keyFunc, line).Some? && LineOf(KeyOf(keyFunc, line).value) == Some(line)
      ensures r.Ok? ==> idx == old(idx)[KeyOf(keyFunc, line).value := idx[KeyOf(keyFunc, line).value]]
      ensures r.Ok? ==> strayed == old(strayed) - {KeyOf(keyFunc, line).value}
                        && deleted == old(deleted) - {KeyOf(keyFunc, line).value}
      ensures r.WriteFailed? ==> idx == old(idx) && deleted == old(deleted)
      ensures r.WriteFailed? ==>
                strayed == match KeyOf(keyFunc, Fragment(line, old(unterminated), n))
                           case None => old(strayed)
                           case Some(k) => old(strayed) + {k}
    {
      hide Agrees, LinesWithKeys, Terminated, Rebuilt, Fragment, Apply, KeyOf, WholeLine;
      var k := keyFunc(line);
      EmptyHasNoKey(keyFunc, line);
      if k.None? || |k.value| == 0 {
        return NoLineKey;
      }
      if NEWLINE in line {
        return InvalidLine;
      }
      var key := k.value;
      ghost var a := file;
      var buf := if unterminated then [NEWLINE] else [];
      var lineOff := size + |buf|;
      buf := buf + line + [NEWLINE];
      assert buf == Written(!Terminated(a), line);
      NeedsSeal(a);
      AppendFragment(a, keyFunc, line, n);
      AppendKeeps(a, keyFunc, line, n, idx);
      WriteAt(buf, n, line);
      if failed {
        ghost var fragment := Fragment(line, !Terminated(a), n);
        FailedPutAgrees(a, keyFunc, idx, strayed, deleted, lineOff, fragment);
        if KeyOf(keyFunc, fragment).Some? { strayed := strayed + {KeyOf(keyFunc, fragment).value}; }
        return WriteFailed;
      }
      assert buf[..n] == buf;
      GoodPut(a, keyFunc, line, key, idx, strayed, deleted);
      idx := idx[key := Loc(lineOff, |line|)];
      strayed, deleted := strayed - {key}, deleted - {key};
      return Ok;
    }

    /** WriteAt of n bytes of buf at the end of the file, and the bookkeeping after it. */
    method WriteAt(buf: Bytes, n: nat, ghost line: Bytes)
      requires size == |file| && unterminated == !Terminated(file) && n <= |buf|
      requires buf == Written(unterminated, line) && NEWLINE !in line
      modifies this`file, this`size, this`unterminated
      ensures file == old(file) + buf[..n] && size == |file| && unterminated == !Terminated(file)
    {
      ghost var a := file;
      file := file[..size] + buf[..n];
      assert a[..size] == a;
      if n > 0 {
        AppendEnds(a, line, n);
        size := size + n;
        unterminated := buf[n - 1] != NEWLINE;
      } else {
        assert file == a;
      }
    }

    /** The line the index has for a key. */
    ghost function LineOf(key: Bytes): Option<Bytes>
      reads this
    {
      if key in idx && idx[key].off + idx[key].len <= |file| then Some(file[idx[key].off..idx[key].off + idx[key].len])
      else None
    }

    /** Get never fails to read: a found line is a whole line of the file and has the key. */
    method Get(key: Bytes) returns (r: GetResult)
      requires Valid()
      ensures r == if key == [] then EmptyKey
                   else match LineOf(key) { case None => NotFound case Some(line) => Found(line) }
      ensures r.Found? ==> KeyOf(keyFunc, r.line) == Some(key) && WholeLine(file, idx[key])
      ensures r.Found? <==> key != [] && key in idx
    {
      hide Agrees, Rebuilt, WholeLine, KeyOf;
      if |key| == 0 {
        return EmptyKey;
      }
      if key !in idx {
        return NotFound;
      }
      var loc := idx[key];
      LineInside(file, loc);
      if loc.off + loc.len > |file| {
        return ReadError;
      }
      return Found(file[loc.off..loc.off + loc.len]);
    }

    /** From memory only; the lines stay in the file. */
    method Delete(key: Bytes) returns (ok: bool)
      requires Valid()
      modifies this`idx, this`deleted
      ensures Valid() && (ok <==> key != [])
      ensures ok ==> idx == old(idx) - {key} && deleted == old(deleted) + {key}
      ensures !ok ==> idx == old(idx) && deleted == old(deleted)
    {
      hide Agrees, Rebuilt, LinesWithKeys, Terminated;
      if |key| == 0 {
        return false;
      }
      DeleteKeepsLines(file, keyFunc, idx, key);
      DeleteAgrees(idx, Rebuilt(file, keyFunc), strayed, deleted, key);
      idx := idx - {key};
      deleted := deleted + {key};
      return true;
    }

    /** The index is what reopening would rebuild, minus the deleted keys, exactly when no stray line is in the way. */
    lemma AgreesWithRebuild()
      requires Valid()
      ensures idx == Rebuilt(file, keyFunc) - deleted <==> strayed <= deleted
    {
      hide Agrees;
      AgreesExactly(idx, Rebuilt(file, keyFunc), strayed, deleted);
    }
  }

  /** A write that succeeded: index and file move together. */
  lemma GoodPut(a: Bytes, keyFunc: KeyFunc, line: Bytes, key: Bytes, m: Index, strayed: set<Bytes>, deleted: set<Bytes>)
    requires NEWLINE !in line && KeyOf(keyFunc, line) == Some(key)
    requires Agrees(m, Rebuilt(a, keyFunc), strayed, deleted)
    requires LinesWithKeys(a + Written(!Terminated(a), line), keyFunc, m)
    ensures var loc := Loc(|a| + if Terminated(a) then 0 else 1, |line|); var b := a + Written(!Terminated(a), line);
            && LinesWithKeys(b, keyFunc, m[key := loc])
            && Agrees(m[key := loc], Rebuilt(b, keyFunc), strayed - {key}, deleted - {key})
            && loc.off + loc.len <= |b| && b[loc.off..loc.off + loc.len] == line
  {
    hide Agrees, LinesWithKeys, Terminated, Rebuilt, Fragment, KeyOf, WholeLine;
    var n := |Written(!Terminated(a), line)|;
    var loc := Loc(|a| + if Terminated(a) then 0 else 1, |line|);
    var b := a + Written(!Terminated(a), line);
    assert Written(!Terminated(a), line)[..n] == Written(!Terminated(a), line);
    AppendFragment(a, keyFunc, line, n);
    WholeLineFragment(line, !Terminated(a));
    NewLineIsWhole(a, line);
    LineInside(b, loc);
    PutAgrees(m, Rebuilt(a, keyFunc), strayed, deleted, key, loc);
    PutKeepsLines(b, keyFunc, m, key, loc);
  }

  lemma NeedsSeal(a: Bytes)
    ensures !Terminated(a) <==> a != [] && a[|a| - 1] != 10
  {}

  lemma EmptyHasNoKey(keyFunc: KeyFunc, line: Bytes)
    requires keyFunc([]).None?
    ensures KeyOf(keyFunc, line) == if keyFunc(line).None? || keyFunc(line).value == [] then None else keyFunc(line)
  {}

  lemma AppendKeeps(a: Bytes, keyFunc: KeyFunc, line: Bytes, n: nat, m: Index)
    requires n <= |Written(!Terminated(a), line)| && LinesWithKeys(a, keyFunc, m)
    ensures LinesWithKeys(a + Written(!Terminated(a), line)[..n], keyFunc, m)
  {
    hide LinesWithKeys;
    LinesKept(a, Written(!Terminated(a), line)[..n], keyFunc, m);
  }

  lemma PutKeepsLines(content: Bytes, keyFunc: KeyFunc, m: Index, key: Bytes, loc: Loc)
    requires LinesWithKeys(content, keyFunc, m) && WholeLine(content, loc)
    requires KeyOf(keyFunc, content[loc.off..loc.off + loc.len]) == Some(key)
    ensures LinesWithKeys(content, keyFunc, m[key := loc])
  {
    hide KeyOf, WholeLine;
  }

  lemma DeleteKeepsLines(content: Bytes, keyFunc: KeyFunc, m: Index, key: Bytes)
    requires LinesWithKeys(content, keyFunc, m)
    ensures LinesWithKeys(content, keyFunc, m - {key})
  {
    hide KeyOf, WholeLine;
  }

  lemma FailedPutAgrees(a: Bytes, keyFunc: KeyFunc, m: Index, strayed: set<Bytes>, deleted: set<Bytes>,
        off: nat, fragment: Bytes)
    requires Agrees(m, Rebuilt(a, keyFunc), strayed, deleted) && LinesWithKeys(a, keyFunc, m) && off >= |a|
    ensures Agrees(m, Apply(Rebuilt(a, keyFunc), keyFunc, off, fragment),
                   match KeyOf(keyFunc, fragment) { case None => strayed case Some(k) => strayed + {k} }, deleted)
  {
    hide Agrees, Rebuilt;
    match KeyOf(keyFunc, fragment)
    case None =>
    case Some(k) =>
      if k in m { KeyedIsNotEmpty(keyFunc, a[m[k].off..m[k].off + m[k].len]); }
      StrayAgrees(m, Rebuilt(a, keyFunc), strayed, deleted, k, Loc(off, |fragment|));
  }

  lemma RebuildStarts(content: Bytes, keyFunc: KeyFunc)
    ensures Rebuilt(content, keyFunc) == RebuiltFrom(map[], content, keyFunc, 0) && Terminated(content[..0])
  {}

  lemma RebuildDone(m: Index, content: Bytes, keyFunc: KeyFunc)
    ensures RebuiltFrom(m, content, keyFunc, |content|) == m
    ensures Rebuilt(content, keyFunc) == RebuiltFrom(map[], content, keyFunc, 0)
  {}

  lemma ChunkEnds(content: Bytes, off: nat, end: nat)
    requires off <= end <= |content| && Terminated(content[..off])
    ensures var chunk := content[off..end];
            Terminated(content[..end]) <==> chunk == [] || chunk[|chunk| - 1] == NEWLINE
    ensures end == |content| ==> content[..end] == content
  {}

  lemma NothingIndexed(content: Bytes, keyFunc: KeyFunc)
    ensures LinesWithKeys(content, keyFunc, map[])
  {}

  /** One round of the scan; the chunk without a newline is the last. */
  lemma RebuildStep(m: Index, content: Bytes, keyFunc: KeyFunc, off: nat)
    requires off <= |content|
    ensures var end := ChunkEnd(content, off); var chunk := content[off..end]; var line := Payload(chunk);
            && (off < end || off == |content|)
            && RebuiltFrom(m, content, keyFunc, off) == RebuiltFrom(Apply(m, keyFunc, off, line), content, keyFunc, end)
            && (chunk == [] || chunk[|chunk| - 1] != NEWLINE ==> end == |content|)
  {
    hide ChunkEnd, KeyOf, Apply;
    LastChunk(content, off);
    if off == |content| { EmptyLine(m, keyFunc, off); }
  }

  lemma EmptyLine(m: Index, keyFunc: KeyFunc, off: nat)
    ensures Apply(m, keyFunc, off, []) == m
  {}
}
