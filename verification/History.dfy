/** The 64-byte ring of length-prefixed records behind the history, and its refinement of the queue. */
module History {
  import opened Config
  import opened HistoryQueue
  import Memory

  // ---------------------------------------------------------------- records as bytes

  function Record(line: Line): string
    requires Savable(line)
  {
    [|line| as char] + line
  }

  function Encode(lines: seq<Line>): string
    requires AllSavable(lines)
  {
    if lines == [] then "" else Record(lines[0]) + Encode(lines[1..])
  }

  /** Reads records until the zero terminator: what a walk over the headers finds. */
  function Decode(bytes: string): seq<Line> {
    if bytes == "" || bytes[0] == '\0' || |bytes| < 1 + bytes[0] as int then []
    else
      var len := bytes[0] as int;
      [bytes[1..1 + len]] + Decode(bytes[1 + len..])
  }

  lemma {:induction false} DecodeRecord(line: Line, rest: string)
    requires Savable(line)
    ensures Decode(Record(line) + rest) == [line] + Decode(rest)
  {
    var bytes := Record(line) + rest;
    assert bytes[0] as int == |line|;
    assert bytes[1..1 + |line|] == line;
    assert bytes[1 + |line|..] == rest;
  }

  lemma {:induction false} DecodeEncode(lines: seq<Line>, rest: string)
    requires AllSavable(lines)
    requires rest != "" && rest[0] == '\0'
    ensures Decode(Encode(lines) + rest) == lines
  {
    if lines == [] {
      assert Encode(lines) + rest == rest;
    } else {
      EncodeFirst(lines, rest);
      DecodeRecord(lines[0], Encode(lines[1..]) + rest);
      DecodeEncode(lines[1..], rest);
    }
  }

  lemma {:induction false} EncodeFirst(lines: seq<Line>, rest: string)
    requires lines != [] && AllSavable(lines)
    ensures Encode(lines) + rest == Record(lines[0]) + (Encode(lines[1..]) + rest)
  {
  }

  lemma {:induction false} EncodeAppend(a: seq<Line>, b: seq<Line>)
    requires AllSavable(a) && AllSavable(b)
    ensures AllSavable(a + b) && Encode(a + b) == Encode(a) + Encode(b)
  {
    if a == [] {
      assert a + b == b;
    } else {
      assert (a + b)[1..] == a[1..] + b;
      EncodeAppend(a[1..], b);
    }
  }

  lemma {:induction false} EncodeSize(lines: seq<Line>)
    requires AllSavable(lines)
    ensures |Encode(lines)| == Used(lines)
  {
    if lines != [] {
      EncodeSize(lines[1..]);
    }
  }

  // ---------------------------------------------------------------- bytes at wrapped positions

  /** The wrap every index computation in the ring applies. */
  function Wrap(i: nat): nat {
    if i >= RING_LEN then i - RING_LEN else i
  }

  /** The slot `i` places after `start`. */
  function Slot(start: nat, i: nat): nat {
    Wrap(start + i)
  }

  /** From `start` on, wrapping, the ring holds `bytes`. */
  ghost predicate Holds(ring: string, start: nat, bytes: string)
    requires |ring| == RING_LEN && start < RING_LEN
  {
    |bytes| <= RING_LEN && forall i :: 0 <= i < |bytes| ==> ring[Slot(start, i)] == bytes[i]
  }

  lemma {:induction false} HoldsConcat(ring: string, start: nat, a: string, b: string)
    requires |ring| == RING_LEN && start < RING_LEN && |a| + |b| <= RING_LEN && |a| < RING_LEN
    ensures Holds(ring, start, a + b) <==> Holds(ring, start, a) && Holds(ring, Slot(start, |a|), b)
  {
    assert forall i :: 0 <= i < |b| ==> Slot(Slot(start, |a|), i) == Slot(start, |a| + i);
    if Holds(ring, start, a + b) {
      assert forall i :: 0 <= i < |a| ==> (a + b)[i] == a[i];
      assert forall i :: 0 <= i < |b| ==> (a + b)[|a| + i] == b[i];
    }
    if Holds(ring, start, a) && Holds(ring, Slot(start, |a|), b) {
      forall i | 0 <= i < |a + b|
        ensures ring[Slot(start, i)] == (a + b)[i]
      {
        if i >= |a| {
          assert ring[Slot(Slot(start, |a|), i - |a|)] == b[i - |a|];
        }
      }
    }
  }

  /** `after` differs from `before` at most in the `n` slots from `start` on. */
  ghost predicate OnlyWritten(before: string, after: string, start: nat, n: nat)
    requires |before| == |after| == RING_LEN && start < RING_LEN
  {
    forall i :: n <= i < RING_LEN ==> after[Slot(start, i)] == before[Slot(start, i)]
  }

  /** Writes behind `bytes` that stay clear of its start leave it alone. */
  lemma {:induction false} EarlierBytesKept(before: string, after: string, begin: nat, bytes: string, n: nat)
    requires |before| == |after| == RING_LEN && begin < RING_LEN
    requires |bytes| + n <= RING_LEN && |bytes| < RING_LEN && Holds(before, begin, bytes)
    requires OnlyWritten(before, after, Slot(begin, |bytes|), n)
    ensures Holds(after, begin, bytes)
  {
    forall i | 0 <= i < |bytes|
      ensures after[Slot(begin, i)] == bytes[i]
    {
      assert Slot(begin, i) == Slot(Slot(begin, |bytes|), RING_LEN - |bytes| + i);
    }
  }

  // ---------------------------------------------------------------- stored lines

  /** Starting at `begin` the ring holds the records of `lines` and then the zero terminator. */
  ghost predicate Stores(ring: string, begin: nat, lines: seq<Line>)
    requires |ring| == RING_LEN && begin < RING_LEN
  {
    && Proper(lines)
    && Holds(ring, begin, Encode(lines))
    && ring[Slot(begin, Used(lines))] == '\0'
  }

  /** The ring's bytes in the order a walk from `begin` meets them. */
  function View(ring: string, begin: nat): string
    requires |ring| == RING_LEN && begin < RING_LEN
  {
    ring[begin..] + ring[..begin]
  }

  /** Reading the ring from `begin` recovers exactly the stored lines, wherever headers and payloads wrap. */
  lemma {:induction false} StoredIsDecoded(ring: string, begin: nat, lines: seq<Line>)
    requires |ring| == RING_LEN && begin < RING_LEN
    requires Stores(ring, begin, lines)
    ensures Decode(View(ring, begin)) == lines
  {
    var view, n := View(ring, begin), |Encode(lines)|;
    EncodeSize(lines);
    assert forall i :: 0 <= i < RING_LEN ==> view[i] == ring[Slot(begin, i)];
    assert view == Encode(lines) + view[n..];
    DecodeEncode(lines, view[n..]);
  }

  lemma {:induction false} AllSavableParts(before: seq<Line>, line: Line, after: seq<Line>)
    requires AllSavable(before + [line] + after)
    ensures AllSavable(before) && Savable(line) && AllSavable(after)
    ensures Used(before + [line] + after) == Used(before) + 1 + |line| + Used(after)
    ensures Encode(before + [line] + after) == Encode(before) + Record(line) + Encode(after)
    ensures |Encode(before)| == Used(before)
  {
    var lines := before + [line] + after;
    assert forall i :: 0 <= i < |before| ==> before[i] == lines[i];
    assert forall i :: 0 <= i < |after| ==> after[i] == lines[|before| + 1 + i];
    assert lines[|before|] == line;
    UsedAppend(before, [line]);
    UsedAppend(before + [line], after);
    EncodeAppend(before, [line]);
    EncodeAppend(before + [line], after);
    EncodeSize(before);
    assert Encode([line]) == Record(line);
  }

  /** One step of a header walk: after the records `before` the ring shows the length and bytes of the next. */
  lemma {:induction false} HeaderAt(ring: string, begin: nat, before: seq<Line>, line: Line, after: seq<Line>)
    requires |ring| == RING_LEN && begin < RING_LEN
    requires Stores(ring, begin, before + [line] + after)
    ensures Used(before) + 1 + |line| < RING_LEN
    ensures var header := Slot(begin, Used(before));
            && ring[header] == |line| as char
            && Slot(begin, Used(before + [line])) == Slot(header, |line| + 1)
            && Holds(ring, Slot(header, 1), line)
  {
    AllSavableParts(before, line, after);
    UsedAppend(before, [line]);
    var header := Slot(begin, Used(before));
    HoldsConcat(ring, begin, Encode(before) + Record(line), Encode(after));
    HoldsConcat(ring, begin, Encode(before), Record(line));
    HoldsConcat(ring, header, [|line| as char], line);
    assert ring[Slot(header, 0)] == [|line| as char][0];
  }

  lemma {:induction false} StoresRest(ring: string, begin: nat, lines: seq<Line>)
    requires |ring| == RING_LEN && begin < RING_LEN && lines != []
    requires Stores(ring, begin, lines)
    ensures Stores(ring, Slot(begin, |lines[0]| + 1), lines[1..])
    ensures Slot(begin, Used(lines)) == Slot(Slot(begin, |lines[0]| + 1), Used(lines[1..]))
  {
    EncodeSize(lines);
    HoldsConcat(ring, begin, Record(lines[0]), Encode(lines[1..]));
  }

  /** A header, its payload and a new terminator written over the old terminator append one line. */
  lemma {:induction false} StoresOneMore(ring: string, begin: nat, lines: seq<Line>, line: Line)
    requires |ring| == RING_LEN && begin < RING_LEN
    requires Proper(lines) && Savable(line) && Fits(lines, |line|)
    requires Holds(ring, begin, Encode(lines))
    requires var end := Slot(begin, Used(lines));
             && ring[end] == |line| as char
             && Holds(ring, Slot(end, 1), line)
             && ring[Slot(end, |line| + 1)] == '\0'
    ensures Stores(ring, begin, lines + [line])
    ensures Slot(begin, Used(lines + [line])) == Slot(Slot(begin, Used(lines)), |line| + 1)
  {
    EncodeSize(lines);
    EncodeAppend(lines, [line]);
    UsedAppend(lines, [line]);
    assert Encode([line]) == Record(line);
    var end := Slot(begin, Used(lines));
    HoldsConcat(ring, end, [|line| as char], line);
    HoldsConcat(ring, begin, Encode(lines), Record(line));
  }

  /** The payload copied, then the header and the new terminator set: the lines grow by one. */
  lemma {:induction false} RecordWritten(before: string, copied: string, after: string, begin: nat, lines: seq<Line>, line: Line)
    requires |before| == |copied| == RING_LEN && begin < RING_LEN
    requires Stores(before, begin, lines) && Savable(line) && Fits(lines, |line|)
    requires var end := Slot(begin, Used(lines));
             && Holds(copied, Slot(end, 1), line)
             && (forall i :: |line| <= i < RING_LEN - 1 ==> copied[Slot(Slot(end, 1), i)] == before[Slot(Slot(end, 1), i)])
             && after == copied[end := |line| as char][Slot(end, |line| + 1) := '\0']
    ensures Stores(after, begin, lines + [line])
    ensures Slot(begin, Used(lines + [line])) == Slot(Slot(begin, Used(lines)), |line| + 1)
  {
    var end := Slot(begin, Used(lines));
    assert Holds(after, Slot(end, 1), line);
    assert OnlyWritten(before, after, end, |line| + 2) by {
      assert forall i :: |line| + 2 <= i < RING_LEN ==> Slot(end, i) == Slot(Slot(end, 1), i - 1);
    }
    EncodeSize(lines);
    EarlierBytesKept(before, after, begin, Encode(lines), |line| + 2);
    StoresOneMore(after, begin, lines, line);
  }

  // ---------------------------------------------------------------- the ring itself

  class RingHistory {
    const ring: array<char>
    var begin: nat
    var end: nat
    /** How many lines back the line on screen is; 0 when it is not from the history. */
    var cur: nat
    /** The lines stored, oldest first. */
    ghost var lines: seq<Line>

    ghost predicate Stored()
      reads this`begin, this`end, this`lines, ring
    {
      && ring.Length == RING_LEN && begin < RING_LEN
      && Stores(ring[..], begin, lines)
      && end == Slot(begin, Used(lines))
    }

    ghost predicate Valid()
      reads this, ring
    {
      Stored() && cur <= |lines|
    }

    constructor ()
      ensures Valid() && lines == [] && cur == 0
      ensures fresh(ring)
    {
      ring := new char[RING_LEN];
      begin, end, cur, lines := 0, 0, 0, [];
      new;
      Memory.Clear(ring, RING_LEN);
    }

    /** The zero header at `begin` tells emptiness, and only then do `begin` and `end` meet. */
    lemma {:induction false} HeaderAtBegin()
      requires Stored()
      ensures begin == end <==> lines == []
      ensures ring[begin] == if lines == [] then '\0' else |lines[0]| as char
    {
      if lines != [] {
        assert lines == [] + [lines[0]] + lines[1..];
        HeaderAt(ring[..], begin, [], lines[0], lines[1..]);
      }
    }

    /** What a reader of the ring alone recovers. */
    lemma {:induction false} DecodesToLines()
      requires Stored()
      ensures Decode(View(ring[..], begin)) == lines
    {
      StoredIsDecoded(ring[..], begin, lines);
    }

    /** Forgets the oldest line. */
    method EraseOlder()
      requires Stored() && lines != []
      modifies this`begin, this`lines
      ensures Stored() && lines == old(lines)[1..]
    {
      HeaderAtBegin();
      StoresRest(ring[..], begin, lines);
      var newPos := begin + ring[begin] as int + 1;
      if newPos >= RING_LEN {
        newPos := newPos - RING_LEN;
      }
      begin := newPos;
      lines := lines[1..];
    }

    method IsSpaceForNew(len: nat) returns (space: bool)
      requires Stored() && len <= MAX_SAVED
      ensures space == (lines == [] || Fits(lines, len))
    {
      HeaderAtBegin();
      if ring[begin] == '\0' {
        return true;
      }
      if end >= begin {
        if RING_LEN - end + begin - 1 > len {
          return true;
        }
      } else {
        if begin - end - 1 > len {
          return true;
        }
      }
      return false;
    }

    /** `line` holds the text in its first `len` bytes; a text too long for the ring is not kept. */
    method SaveLine(line: array<char>, len: nat)
      requires Valid() && line != ring && 0 < len <= line.Length
      modifies this, ring
      ensures Valid() && lines == Save(old(lines), line[..len])
      ensures cur == if len > MAX_SAVED then old(cur) else 0
    {
      if len > RING_LEN - 2 {
        return;
      }
      var space := IsSpaceForNew(len);
      while !space
        invariant Stored() && ring[..] == old(ring[..])
        invariant space == (lines == [] || Fits(lines, len))
        invariant Evict(lines, len) == Evict(old(lines), len)
        decreases |lines|
      {
        EraseOlder();
        space := IsSpaceForNew(len);
      }
      AppendRecord(line, len);
      cur := 0;
    }

    /** Writes a record for which there is space after the last one. */
    method AppendRecord(line: array<char>, len: nat)
      requires Stored() && line != ring
      requires 0 < len <= MAX_SAVED && len <= line.Length && Fits(lines, len)
      modifies this`end, this`lines, ring
      ensures Stored() && lines == old(lines) + [line[..len]]
    {
      HeaderAtBegin();
      // if it's the first line
      if ring[begin] == '\0' {
        ring[begin] := len as char;
      }
      CopyPayload(line, len);
      ghost var copied := ring[..];
      ring[end] := len as char;
      end := end + len + 1;
      if end >= RING_LEN {
        end := end - RING_LEN;
      }
      ring[end] := '\0';
      RecordWritten(old(ring[..]), copied, ring[..], begin, lines, line[..len]);
      lines := lines + [line[..len]];
    }

    /** Copies the payload behind the header at `end`, in two pieces where it wraps. */
    method CopyPayload(line: array<char>, len: nat)
      requires ring.Length == RING_LEN && end < RING_LEN && line != ring
      requires 0 < len <= MAX_SAVED && len <= line.Length
      modifies ring
      ensures Holds(ring[..], Slot(end, 1), line[..len])
      ensures OnlyWritten(old(ring[..]), ring[..], Slot(end, 1), len)
    {
      if len < RING_LEN - end - 1 {
        Memory.Move(ring, end + 1, line, 0, len);
      } else {
        var partLen := RING_LEN - end - 1;
        Memory.Move(ring, end + 1, line, 0, partLen);
        Memory.Move(ring, 0, line, partLen, len - partLen);
      }
    }

    /** Brings the line Up or Down selects into `line` and returns its length, or -1 when there is none. */
    method RestoreLine(line: array<char>, dir: Direction) returns (len: int)
      requires Valid() && line != ring && line.Length == COMMAND_LINE_LEN
      modifies this`cur, line
      ensures Valid()
      ensures var recall := Navigate(lines, old(cur), dir);
              && cur == recall.cur
              && match recall.shown {
                   case None => len == -1 && line[..] == old(line[..])
                   case Some(text) =>
                     && len == |text| && line[..len] == text
                     && forall i :: len <= i < line.Length ==> line[i] == if dir == Up then '\0' else old(line[i])
                 }
    {
      var cnt := CountRecords();
      if dir == Up {
        if cnt >= cur {
          var header := Seek(cnt - 1 - cur);
          if ring[header] != '\0' {
            cur := cur + 1;
            // obtain saved line
            Memory.Clear(line, COMMAND_LINE_LEN);
            CopyOut(header, cnt - cur, line);
            return ring[header] as int;
          }
        }
      } else {
        if cur > 0 {
          cur := cur - 1;
          var header := Seek(cnt - cur);
          CopyOut(header, cnt - cur, line);
          return ring[header] as int;
        } else {
          return 0;
        }
      }
      return -1;
    }

    /** Slot of the header of record `j`, or of the terminator behind the last record. */
    ghost function HeaderSlot(j: nat): nat
      requires j <= |lines|
      reads this
    {
      Slot(begin, Used(lines[..j]))
    }

    lemma {:induction false} Header(j: nat)
      requires Stored() && j <= |lines|
      ensures HeaderSlot(j) < RING_LEN
      ensures ring[HeaderSlot(j)] as int == if j < |lines| then |lines[j]| else 0
      ensures j < |lines| ==> HeaderSlot(j + 1) == Slot(HeaderSlot(j), |lines[j]| + 1)
      ensures j < |lines| ==> Savable(lines[j]) && Holds(ring[..], Slot(HeaderSlot(j), 1), lines[j])
    {
      if j < |lines| {
        assert lines == lines[..j] + [lines[j]] + lines[j + 1..];
        assert lines[..j + 1] == lines[..j] + [lines[j]];
        HeaderAt(ring[..], begin, lines[..j], lines[j], lines[j + 1..]);
      } else {
        assert lines[..j] == lines;
      }
    }

    method CountRecords() returns (cnt: nat)
      requires Stored()
      ensures cnt == |lines|
    {
      var header := begin;
      cnt := 0;
      Header(0);
      while ring[header] != '\0'
        invariant cnt <= |lines| && header == HeaderSlot(cnt) && header < RING_LEN
        invariant ring[header] as int == if cnt < |lines| then |lines[cnt]| else 0
        decreases |lines| - cnt
      {
        Header(cnt);
        Header(cnt + 1);
        header := header + ring[header] as int + 1;
        if header >= RING_LEN {
          header := header - RING_LEN;
        }
        cnt := cnt + 1;
      }
      Header(cnt);
    }

    /** Walks to the header of record `target`, or to the terminator when there is no such record. */
    method Seek(target: int) returns (header: nat)
      requires Stored() && target <= |lines|
      ensures header == HeaderSlot(if target < 0 then |lines| else target)
      ensures header < RING_LEN
      ensures ring[header] == '\0' <==> target < 0 || target == |lines|
    {
      header := begin;
      var j := 0;
      Header(0);
      while ring[header] != '\0' && j != target
        invariant j <= |lines| && (0 <= target ==> j <= target) && header == HeaderSlot(j)
        invariant header < RING_LEN && ring[header] as int == if j < |lines| then |lines[j]| else 0
        decreases |lines| - j
      {
        Header(j);
        Header(j + 1);
        header := header + ring[header] as int + 1;
        if header >= RING_LEN {
          header := header - RING_LEN;
        }
        j := j + 1;
      }
      Header(j);
    }

    /** Copies the payload of record `j` out, in two pieces where it wraps; at the terminator copies nothing. */
    method CopyOut(header: nat, ghost j: nat, line: array<char>)
      requires Stored() && j <= |lines| && header == HeaderSlot(j)
      requires line != ring && line.Length == COMMAND_LINE_LEN
      modifies line
      ensures header < RING_LEN
      ensures var text := if j < |lines| then lines[j] else "";
              && ring[header] as int == |text| && line[..|text|] == text
              && forall i :: |text| <= i < line.Length ==> line[i] == old(line[i])
    {
      Header(j);
      var len := ring[header] as int;
      ghost var text := if j < |lines| then lines[j] else "";
      if len + header < RING_LEN {
        Memory.Move(line, 0, ring, header + 1, len);
      } else {
        var part0 := RING_LEN - header - 1;
        Memory.Move(line, 0, ring, header + 1, part0);
        Memory.Move(line, part0, ring, 0, len - part0);
      }
      forall i | 0 <= i < |text|
        ensures line[i] == text[i]
      {
        assert ring[..][Slot(Slot(header, 1), i)] == text[i];
      }
    }
  }
}
