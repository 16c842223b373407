/** String::replace on a NUL-terminated character buffer, with the search and copy routines it uses. */
module WString {
  import opened Replacing

  const NUL: char := '\0'

  class WString {
    var buffer: array<char>
    var len: nat
    var capacity: nat

    ghost predicate Valid()
      reads this, buffer
    {
      && len <= capacity && buffer.Length == capacity + 1
      && buffer[len] == NUL && NUL !in buffer[..len]
    }

    ghost function Contents(): string
      reads this, buffer
      requires len <= buffer.Length
    {
      buffer[..len]
    }

    /** strstr(buffer + from, find), as an index or -1; the terminator is at `end`. */
    method StrStr(from: nat, find: string, ghost end: nat) returns (at: int)
      requires from <= end < buffer.Length && buffer[end] == NUL && NUL !in buffer[from..end]
      requires find != [] && NUL !in find
      ensures at == First(buffer[..end], find, from)
    {
      hide First;
      var p := from;
      while true
        invariant from <= p <= end
        invariant First(buffer[..end], find, from) == First(buffer[..end], find, p)
        decreases end - p
      {
        var here := Matches(p, find, end);
        FirstStep(buffer[..end], find, p);
        if here { return p; }
        if buffer[p] == NUL { return -1; }
        assert p != end;
        p := p + 1;
      }
    }

    lemma FirstStep(s: string, f: string, p: nat)
      requires p <= |s|
      ensures MatchAt(s, f, p) ==> First(s, f, p) == p
      ensures !MatchAt(s, f, p) && f != [] ==> First(s, f, p) == if p < |s| then First(s, f, p + 1) else -1
    {
    }

    /** Does `find` stand at `p`?  The comparison stops at the terminator at the latest. */
    method Matches(p: nat, find: string, ghost end: nat) returns (here: bool)
      requires p <= end < buffer.Length && buffer[end] == NUL && NUL !in buffer[p..end]
      requires NUL !in find
      ensures here <==> MatchAt(buffer[..end], find, p)
    {
      var k := 0;
      while k < |find| && buffer[p + k] == find[k]
        invariant k <= |find| && p + k <= end
        invariant buffer[p..p + k] == find[..k]
      {
        assert find[k] in find && find[k] != NUL;
        k := k + 1;
      }
      if p + |find| <= end {
        assert buffer[..end][p..p + |find|] == buffer[p..p + |find|];
        assert k < |find| ==> buffer[p..p + |find|][k] != find[k];
      }
      assert find[..|find|] == find;
      return k == |find|;
    }

    /** memcpy(buffer + at, src, |src|) */
    method CopyIn(at: nat, src: string)
      requires at + |src| <= buffer.Length
      modifies buffer
      ensures buffer[..] == old(buffer[..at]) + src + old(buffer[at + |src|..])
    {
      for i := 0 to |src|
        invariant buffer[..] == old(buffer[..at]) + src[..i] + old(buffer[at + i..])
      {
        buffer[at + i] := src[i];
      }
    }

    /** Copy `n` characters down from `src` to `dst`, lowest first, as memcpy and strcpy do here even
        where the two overlap. */
    method CopyDown(dst: nat, src: nat, n: nat)
      requires dst <= src && src + n <= buffer.Length
      modifies buffer
      ensures buffer[..dst] == old(buffer[..dst]) && buffer[dst + n..] == old(buffer[dst + n..])
      ensures buffer[dst..dst + n] == old(buffer[src..src + n])
    {
      for i := 0 to n
        invariant forall k :: dst <= k < dst + i ==> buffer[k] == old(buffer[k - dst + src])
        invariant forall k :: 0 <= k < buffer.Length && !(dst <= k < dst + i) ==> buffer[k] == old(buffer[k])
      {
        buffer[dst + i] := buffer[src + i];
      }
    }

    /** strcpy(buffer + dst, buffer + src), down over itself; the terminator is at `end`. */
    method StrCpyDown(dst: nat, src: nat, ghost end: nat)
      requires dst <= src <= end < buffer.Length && buffer[end] == NUL && forall k :: src <= k < end ==> buffer[k] != NUL
      modifies buffer
      ensures buffer[..dst] == old(buffer[..dst])
      ensures buffer[dst..dst + (end - src)] == old(buffer[src..end]) && buffer[dst + (end - src)] == NUL
    {
      ghost var b := buffer[..];
      var i := 0;
      while buffer[src + i] != NUL
        invariant src + i <= end
        invariant forall k :: dst <= k < dst + i ==> buffer[k] == b[k - dst + src]
        invariant forall k :: 0 <= k < buffer.Length && !(dst <= k < dst + i) ==> buffer[k] == b[k]
        decreases end - i
      {
        buffer[dst + i] := buffer[src + i];
        i := i + 1;
      }
      assert buffer[src + i] == b[src + i];
      assert src + i == end;
      buffer[dst + i] := NUL;
      assert buffer[dst..dst + i] == b[src..end];
    }

    /** Copy `n` characters up from `src` to `dst`, highest first, as memmove does. */
    method MoveUp(dst: nat, src: nat, n: nat)
      requires src <= dst && dst + n <= buffer.Length
      modifies buffer
      ensures forall k :: dst <= k < dst + n ==> buffer[k] == old(buffer[k - dst + src])
      ensures forall k :: 0 <= k < buffer.Length && !(dst <= k < dst + n) ==> buffer[k] == old(buffer[k])
    {
      var i := n;
      while i > 0
        invariant 0 <= i <= n
        invariant forall k :: dst + i <= k < dst + n ==> buffer[k] == old(buffer[k - dst + src])
        invariant forall k :: 0 <= k < buffer.Length && !(dst + i <= k < dst + n) ==> buffer[k] == old(buffer[k])
      {
        i := i - 1;
        buffer[dst + i] := buffer[src + i];
      }
    }

    method LastIndexOf(find: string, from: int) returns (found: int)
      requires Valid() && 0 <= from && NUL !in find
      ensures found == if find == [] then -1 else Last(Contents(), find, if from < len then from else len - 1)
    {
      hide First, Last;
      if find == [] { return -1; }
      if len == 0 || |find| > len {
        NoRoom(Contents(), find, if from < len then from else len - 1);
        return -1;
      }
      var last := if from >= len then len - 1 else from;
      found := -1;
      var p := 0;
      ghost var s := Contents();
      while p <= last
        invariant 0 <= p <= last + 1
        invariant found == Last(s, find, p - 1)
        decreases last - p + 1
      {
        var q := StrStr(p, find, len);
        FoundNext(s, find, p, q, last);
        if q < 0 { return; }
        if q <= last { found := q; }
        p := if q <= last then q + 1 else last + 1;
      }
    }

    lemma NoRoom(s: string, f: string, from: int)
      requires |s| < |f|
      ensures Last(s, f, from) == -1
    {
    }

    lemma FoundNext(s: string, f: string, p: nat, q: int, last: nat)
      requires p <= last < |s| && q == First(s, f, p)
      ensures q < 0 || last < q ==> Last(s, f, last) == Last(s, f, p - 1)
      ensures 0 <= q <= last ==> Last(s, f, q) == q
    {
      LastOver(s, f, p, if q < 0 || last < q then last else q - 1);
    }

    lemma {:induction false} LastOver(s: string, f: string, p: nat, last: int)
      requires p <= last + 1 && forall j :: p <= j <= last ==> !MatchAt(s, f, j)
      ensures Last(s, f, last) == Last(s, f, p - 1)
      decreases last
    {
      if p <= last { LastOver(s, f, p, last - 1); }
    }
  
    // ----- replace -----

    /** Overwrite a match with a replacement of the same length. */
    method Overwrite(at: nat, repl: string)
      requires Valid() && at + |repl| <= len && NUL !in repl
      modifies buffer
      ensures Valid() && Contents() == Splice(old(Contents()), at, |repl|, repl)
    {
      ghost var c := Contents();
      CopyIn(at, repl);
      assert Contents() == Splice(c, at, |repl|, repl);
    }

    /** Equal lengths: overwrite each match in place. */
    method ReplaceEqual(find: string, repl: string)
      requires Valid() && find != [] && |find| == |repl| && NUL !in find && NUL !in repl
      modifies buffer
      ensures Valid() && Contents() == Replace(old(Contents()), find, repl)
    {
      hide First, MatchAt, Replace, Splice;
      ghost var s := Contents();
      var readFrom := 0;
      var foundAt := StrStr(readFrom, find, len);
      WholeText(s, find, repl);
      while foundAt >= 0
        invariant Valid() && 0 <= readFrom <= len && len == old(len)
        invariant foundAt == First(Contents(), find, readFrom)
        invariant Contents()[..readFrom] + Replace(Contents()[readFrom..], find, repl) == Replace(s, find, repl)
        decreases len - readFrom
      {
        ghost var c, from := Contents(), readFrom;
        ReplaceFrom(c, find, repl, readFrom);
        Overwrite(foundAt, repl);
        Overwritten(c, repl, from, foundAt);
        readFrom := foundAt + |repl|;
        foundAt := StrStr(readFrom, find, len);
      }
      ReplaceFrom(Contents(), find, repl, readFrom);
      assert Contents() == Contents()[..readFrom] + Contents()[readFrom..];
    }

    /** Copy the text between two matches down to `writeTo`, and the replacement after it. */
    method CopyMatch(writeTo: nat, readFrom: nat, foundAt: nat, repl: string, flen: nat) returns (written: nat)
      requires writeTo <= readFrom <= foundAt && foundAt + flen <= buffer.Length && |repl| < flen
      modifies buffer
      ensures written == writeTo + (foundAt - readFrom) + |repl|
      ensures buffer[..written] == old(buffer[..writeTo]) + old(buffer[readFrom..foundAt]) + repl
      ensures buffer[foundAt + flen..] == old(buffer[foundAt + flen..])
    {
      ghost var b := buffer[..];
      CopyDown(writeTo, readFrom, foundAt - readFrom);
      ghost var moved := buffer[..];
      MovedDown(b, moved, writeTo, readFrom, foundAt, foundAt + flen);
      written := writeTo + (foundAt - readFrom);
      CopyIn(written, repl);
      TailKept(moved, buffer[..], written, repl, foundAt + flen);
      written := written + |repl|;
    }

    /** A shorter replacement: copy the text down over itself, one match at a time. */
    method ReplaceShrinking(find: string, repl: string)
      requires Valid() && |repl| < |find| && NUL !in find && NUL !in repl
      modifies this`len, buffer
      ensures Valid() && Contents() == Replace(old(Contents()), find, repl)
    {
      hide First, MatchAt, Replace, Halfway;
      ghost var s, n := Contents(), len;
      var readFrom, writeTo := 0, 0;
      var foundAt := StrStr(readFrom, find, n);
      HalfwayStart(buffer[..], s, find, repl);
      while foundAt >= 0
        invariant 0 <= writeTo <= readFrom <= n < buffer.Length && len == n - (readFrom - writeTo)
        invariant foundAt == First(s, find, readFrom) && Halfway(buffer[..], s, writeTo, readFrom, find, repl)
        decreases n - readFrom
      {
        ghost var b, w, from := buffer[..], writeTo, readFrom;
        ReplaceFrom(s, find, repl, readFrom);
        writeTo := CopyMatch(writeTo, readFrom, foundAt, repl, |find|);
        readFrom := foundAt + |find|;
        len := len - (|find| - |repl|);
        HalfwayStep(b, buffer[..], s, w, from, foundAt, writeTo, find, repl);
        HalfwayText(buffer[..], s, writeTo, readFrom, find, repl);
        foundAt := StrStr(readFrom, find, n);
        FirstFromSuffix(buffer[..n], s, find, readFrom);
      }
      ReplaceFrom(s, find, repl, readFrom);
      HalfwayText(buffer[..], s, writeTo, readFrom, find, repl);
      ghost var done := buffer[..writeTo];
      StrCpyDown(writeTo, readFrom, n);
      assert Contents() == done + s[readFrom..];
    }

    /** The size of the result, from the number of matches. */
    method ResultSize(find: string, repl: string) returns (size: nat)
      requires Valid() && find != [] && |find| < |repl| && NUL !in find
      ensures size == |Replace(Contents(), find, repl)|
      ensures size == len ==> First(Contents(), find, 0) < 0
    {
      hide First, MatchAt, Replace;
      ghost var s := Contents();
      var readFrom, diff := 0, |repl| - |find|;
      size := len;
      var foundAt := StrStr(readFrom, find, len);
      assert s[0..] == s;
      while foundAt >= 0
        invariant 0 <= readFrom <= len && foundAt == First(s, find, readFrom)
        invariant size - len == |Replace(s, find, repl)| - |s| - (|Replace(s[readFrom..], find, repl)| - |s[readFrom..]|)
        invariant size == len ==> readFrom == 0
        invariant len <= size
        decreases len - readFrom
      {
        ReplaceFrom(s, find, repl, readFrom);
        readFrom := foundAt + |find|;
        size := size + diff;
        foundAt := StrStr(readFrom, find, len);
      }
      ReplaceFrom(s, find, repl, readFrom);
    }

    /** reserve more room; the allocator may refuse. */
    method ChangeBuffer(maxStrLen: nat, granted: bool) returns (ok: bool)
      requires Valid() && len <= maxStrLen
      modifies this
      ensures Valid() && Contents() == old(Contents()) && len == old(len) && ok == granted
      ensures if ok then capacity == maxStrLen && fresh(buffer) else capacity == old(capacity) && buffer == old(buffer)
    {
      if !granted { return false; }
      var newBuffer := new char[maxStrLen + 1];
      ghost var s := Contents();
      for i := 0 to len + 1
        invariant newBuffer[..i] == buffer[..i]
        modifies newBuffer
      {
        newBuffer[i] := buffer[i];
      }
      assert newBuffer[..len + 1][..len] == buffer[..len];
      assert newBuffer[len] == newBuffer[..len + 1][len] == buffer[..len + 1][len];
      buffer := newBuffer;
      capacity := maxStrLen;
      return true;
    }

    /** Move the text after the match up by the difference in length. */
    method OpenGap(readFrom: nat, diff: nat)
      requires Valid() && readFrom <= len && len + diff <= capacity
      modifies this`len, buffer
      ensures len == old(len) + diff && buffer[len] == NUL
      ensures buffer[..readFrom] == old(buffer[..readFrom])
      ensures buffer[readFrom + diff..len] == old(buffer[readFrom..len])
    {
      MoveUp(readFrom + diff, readFrom, len - readFrom);
      len := len + diff;
      buffer[len] := NUL;
    }

    /** One round of the growing branch: open a gap at the match and put the replacement there. */
    method GrowAt(index: nat, flen: nat, repl: string)
      requires Valid() && index + flen <= len && flen < |repl| && len + |repl| - flen <= capacity && NUL !in repl
      modifies this`len, buffer
      ensures Valid() && Contents() == Splice(old(Contents()), index, flen, repl)
      ensures len == old(len) + |repl| - flen
    {
      ghost var s := Contents();
      OpenGap(index + flen, |repl| - flen);
      ghost var b := buffer[..];
      CopyIn(index, repl);
      Spliced(s, b, buffer[..], index, flen, repl, len);
    }

    /** A longer replacement: work from the last match to the first.  The source does not look at the
        capacity again; the model stops, with `within` false, where it would write past the buffer. */
    method ReplaceGrowing(find: string, repl: string, granted: bool) returns (within: bool)
      requires Valid() && find != [] && |find| < |repl| && NUL !in find && NUL !in repl
      modifies this, buffer
      ensures Valid()
      ensures var room := |Replace(old(Contents()), find, repl)| <= old(capacity) || granted;
              && (within <==> room ==> StaysInRoom(old(Contents()), find, repl, old(capacity)))
              && (within ==> Contents() == if room then Rtl(old(Contents()), find, repl, old(len) - 1) else old(Contents()))
    {
      hide First, MatchAt, Replace, Last, Rtl, Splice;
      ghost var s := Contents();
      var size := ResultSize(find, repl);
      if size == len {
        NothingFound(s, find, repl);
        return true;
      }
      if size > capacity {
        var ok := ChangeBuffer(size, granted);
        if !ok { return true; }
      }
      RtlGrows(s, find, repl, len - 1);
      var index: int := len - 1;
      while index >= 0
        invariant Valid() && index < len
        invariant Rtl(Contents(), find, repl, index) == Rtl(s, find, repl, |s| - 1)
        invariant buffer == old(buffer) || fresh(buffer)
        invariant len <= |Rtl(s, find, repl, |s| - 1)| && capacity == if old(capacity) < size then size else old(capacity)
        decreases index
      {
        ghost var c, from := Contents(), index;
        index := LastIndexOf(find, index);
        RtlFrom(c, find, repl, from);
        if index < 0 { break; }
        if len + |repl| - |find| > capacity { return false; }
        GrowAt(index, |find|, repl);
        RtlGrows(Contents(), find, repl, index - 1);
        index := index - 1;
      }
      RtlNone(Contents(), find, repl, index);
      within := true;
    }

    /** replace(): every match of `find`, from left to right, becomes `repl`, except that matches
        that can overlap are taken from the right when the text grows.  When the result needs more
        room and none is granted, the string stays as it was. */
    method ReplaceAll(find: string, repl: string, granted: bool) returns (within: bool)
      requires Valid() && NUL !in find && NUL !in repl
      modifies this, buffer
      ensures Valid()
      ensures find == [] ==> within && Contents() == old(Contents())
      ensures find != [] && (|repl| <= |find| || Separated(find, repl)) ==>
                var result := Replace(old(Contents()), find, repl);
                within && Contents() == if |result| <= old(capacity) || granted then result else old(Contents())
      ensures find != [] && |find| < |repl| ==>
                var room := |Replace(old(Contents()), find, repl)| <= old(capacity) || granted;
                && (within <==> room ==> StaysInRoom(old(Contents()), find, repl, old(capacity)))
                && (Clear(find, repl) ==> within)
                && (within ==> Contents() == if room then Rtl(old(Contents()), find, repl, old(len) - 1) else old(Contents()))
    {
      hide First, MatchAt, Replace, Separated, Rtl, Clear;
      within := true;
      if len == 0 || find == [] {
        if find != [] { NothingToReplace(find, repl); }
        return;
      }
      if |find| == |repl| {
        ReplaceEqual(find, repl);
      } else if |repl| < |find| {
        ReplaceShrinking(find, repl);
      } else {
        if Separated(find, repl) {
          SeparatedSelf(find, repl);
          SeparatedAgree(Contents(), find, repl);
        }
        if Clear(find, repl) { ClearFits(Contents(), find, repl); }
        within := ReplaceGrowing(find, repl, granted);
      }
    }
  }

  lemma NothingFound(s: string, f: string, r: string)
    requires f != [] && First(s, f, 0) < 0
    ensures Rtl(s, f, r, |s| - 1) == s
  {
  }

  /** Replacement of what is left, in terms of the next match. */
  lemma ReplaceFrom(s: string, f: string, r: string, from: nat)
    requires f != [] && from <= |s|
    ensures var i := First(s, f, from);
            if i < 0 then Replace(s[from..], f, r) == s[from..]
            else from <= i && i + |f| <= |s| &&
                 Replace(s[from..], f, r) == s[from..i] + r + Replace(s[i + |f|..], f, r)
  {
    hide MatchAt, Replace, First;
    var i := First(s, f, from);
    forall j | 0 <= j ensures MatchAt(s[from..], f, j) <==> MatchAt(s, f, from + j) { MatchInSuffix(s, f, from, j); }
    if i < 0 {
      forall j ensures !MatchAt(s[from..], f, j) { if j < 0 { NegativeNever(s[from..], f, j); } }
      NoMatch(s[from..], f, r);
    } else {
      MatchBounds(s, f, i);
      ReplaceFirst(s[from..], f, r, i - from);
      assert s[from..][..i - from] == s[from..i] && s[from..][i - from + |f|..] == s[i + |f|..];
    }
  }

  lemma Overwritten(c: string, r: string, from: nat, at: nat)
    requires from <= at && at + |r| <= |c|
    ensures var c' := Splice(c, at, |r|, r);
            |c'| == |c| && c'[..at + |r|] == c[..from] + (c[from..at] + r) && c'[at + |r|..] == c[at + |r|..]
  {
  }

  lemma WholeText(s: string, f: string, r: string)
    requires f != []
    ensures s[..0] + Replace(s[0..], f, r) == Replace(s, f, r)
  {
    assert s[0..] == s;
  }

  lemma FirstFromSuffix(s: string, t: string, f: string, from: nat)
    requires from <= |s| == |t| && s[from..] == t[from..]
    ensures First(s, f, from) == First(t, f, from)
  {
    forall j: nat | from <= j ensures MatchAt(s, f, j) <==> MatchAt(t, f, j) {
      MatchInSuffix(s, f, from, j - from);
      MatchInSuffix(t, f, from, j - from);
    }
  }

  /** The shrinking loop has written the result so far below `w` and has yet to read from `from`. */
  ghost predicate Halfway(b: string, s: string, w: nat, from: nat, f: string, r: string)
    requires f != []
  {
    && w <= from <= |s| < |b| && b[from..|s|] == s[from..] && b[|s|] == NUL && NUL !in b[..w] && NUL !in s
    && b[..w] + Replace(s[from..], f, r) == Replace(s, f, r)
  }

  lemma HalfwayStart(b: string, s: string, f: string, r: string)
    requires f != [] && |s| < |b| && b[..|s|] == s && b[|s|] == NUL && NUL !in s
    ensures Halfway(b, s, 0, 0, f, r)
  {
    hide Replace;
    WholeText(s, f, r);
    assert b[0..|s|] == s == s[0..] && b[..0] == s[..0];
  }

  lemma HalfwayText(b: string, s: string, w: nat, from: nat, f: string, r: string)
    requires f != [] && Halfway(b, s, w, from, f, r)
    ensures w <= from <= |s| < |b| && b[|s|] == NUL && NUL !in b[from..|s|] && NUL !in b[..w]
    ensures b[..|s|][from..] == b[from..|s|] == s[from..]
    ensures b[..w] + Replace(s[from..], f, r) == Replace(s, f, r)
    ensures forall k :: from <= k < |s| ==> b[k] != NUL
  {
    hide Replace;
    forall k | from <= k < |s| ensures b[k] != NUL {
      assert b[k] == b[from..|s|][k - from] == s[k] && s[k] in s;
    }
    forall k | 0 <= k < |b[from..|s|]| ensures b[from..|s|][k] != NUL { assert b[from..|s|][k] == b[from + k]; }
  }

  /** One round: the text up to the match and the replacement have been copied down. */
  lemma HalfwayStep(b: string, b': string, s: string, w: nat, from: nat, at: nat, w': nat, f: string, r: string)
    requires f != [] && Halfway(b, s, w, from, f, r) && from <= at && at + |f| <= |s| && |r| < |f| && |b'| == |b|
    requires w' == w + (at - from) + |r| && NUL !in r
    requires b'[..w'] == b[..w] + b[from..at] + r && b'[at + |f|..] == b[at + |f|..]
    requires Replace(s[from..], f, r) == s[from..at] + r + Replace(s[at + |f|..], f, r)
    ensures Halfway(b', s, w', at + |f|, f, r)
  {
    hide Replace;
    HalfwaySlices(b, b', s, from, at, at + |f|);
    NulFree(b[..w], s, from, at, r);
    Regrouped(b[..w], s[from..at], r, Replace(s[at + |f|..], f, r));
  }

  lemma HalfwaySlices(b: string, b': string, s: string, from: nat, at: nat, from': nat)
    requires from <= at <= from' <= |s| < |b| == |b'| && b[from..|s|] == s[from..] && b[|s|] == NUL
    requires b'[from'..] == b[from'..]
    ensures b[from..at] == s[from..at] && b'[from'..|s|] == s[from'..] && b'[|s|] == NUL
  {
    var n := |s|;
    assert b[from..at] == b[from..n][..at - from] == s[from..][..at - from];
    assert b'[from'..n] == b'[from'..][..n - from'] == b[from'..n] == b[from..n][from' - from..];
    assert b'[n] == b'[from'..][n - from'];
  }

  lemma NulFree(u: string, s: string, from: nat, at: nat, r: string)
    requires NUL !in u && NUL !in s && NUL !in r && from <= at <= |s|
    ensures NUL !in u + s[from..at] + r
  {
  }

  lemma Regrouped(a: string, b: string, c: string, d: string)
    ensures (a + b + c) + d == a + (b + c + d)
  {
  }

  lemma NothingToReplace(f: string, r: string)
    requires f != []
    ensures Replace([], f, r) == [] && Rtl([], f, r, -1) == []
  {
  }

  /** What one round of the growing loop does to the result still to come. */
  lemma RtlFrom(s: string, f: string, r: string, index: int)
    requires f != [] && |f| < |r| && index < |s|
    ensures var i := Last(s, f, index);
            if i < 0 then Rtl(s, f, r, index) == s
            else 0 <= i <= index && i + |f| <= |s| && |s| + |r| - |f| <= |Rtl(s, f, r, index)| &&
                 Rtl(s, f, r, index) == Rtl(Splice(s, i, |f|, r), f, r, i - 1)
  {
    hide Splice, Last;
    RtlGrows(s, f, r, index);
  }

  lemma Spliced(s: string, b: string, b': string, i: nat, n: nat, r: string, len: nat)
    requires i + n <= |s| && n < |r| && len == |s| + |r| - n < |b| && NUL !in s && NUL !in r
    requires b[..i + n] == s[..i + n] && b[i + |r|..len] == s[i + n..] && b[len] == NUL
    requires b' == b[..i] + r + b[i + |r|..]
    ensures b'[..len] == Splice(s, i, n, r) && b'[len] == NUL && NUL !in b'[..len] && |b'| == |b|
  {
    assert b[..i] == b[..i + n][..i] == s[..i];
    assert b'[..len] == b[..i] + r + b[i + |r|..len];
  }

  lemma TailKept(b: string, b': string, at: nat, r: string, from: nat)
    requires at + |r| <= from <= |b| && b' == b[..at] + r + b[at + |r|..]
    ensures |b'| == |b| && b'[from..] == b[from..] && b'[..at + |r|] == b[..at] + r
  {
  }

  lemma MovedDown(b: string, b': string, w: nat, from: nat, at: nat, from': nat)
    requires w <= from <= at <= from' <= |b| == |b'| && b'[..w] == b[..w] && b'[w + (at - from)..] == b[w + (at - from)..]
    requires b'[w..w + (at - from)] == b[from..at]
    ensures b'[..w + (at - from)] == b[..w] + b[from..at] && b'[from'..] == b[from'..]
  {
    var m := w + (at - from);
    assert b'[..m] == b'[..w] + b'[w..m];
    assert b'[from'..] == b'[m..][from' - m..] && b[from'..] == b[m..][from' - m..];
  }
}
