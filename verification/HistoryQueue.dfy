/** What the history promises, without the ring: a queue of lines with bounded storage. */
module HistoryQueue {
  import opened Config

  /** The longest line the history keeps. */
  const MAX_SAVED := RING_LEN - 2

  type Line = string

  predicate Savable(line: Line) {
    1 <= |line| <= MAX_SAVED
  }

  predicate AllSavable(lines: seq<Line>) {
    forall i :: 0 <= i < |lines| ==> Savable(lines[i])
  }

  /** Bytes taken by the records of `lines`: one header byte and the payload each. */
  function Used(lines: seq<Line>): nat {
    if lines == [] then 0 else 1 + |lines[0]| + Used(lines[1..])
  }

  lemma {:induction false} UsedAppend(a: seq<Line>, b: seq<Line>)
    ensures Used(a + b) == Used(a) + Used(b)
  {
    if a == [] {
      assert a + b == b;
    } else {
      assert (a + b)[1..] == a[1..] + b;
      UsedAppend(a[1..], b);
    }
  }

  /** A content the ring can hold: every byte but the zero terminator may be used. */
  predicate Proper(lines: seq<Line>) {
    AllSavable(lines) && Used(lines) < RING_LEN
  }

  predicate Fits(lines: seq<Line>, len: nat) {
    Used(lines) + len + 2 <= RING_LEN
  }

  /** Drops oldest lines until a line of length `len` fits. */
  function Evict(lines: seq<Line>, len: nat): seq<Line> {
    if lines == [] || Fits(lines, len) then lines else Evict(lines[1..], len)
  }

  function Save(lines: seq<Line>, line: Line): seq<Line> {
    if |line| > MAX_SAVED then lines else Evict(lines, |line|) + [line]
  }

  /** Eviction drops the fewest oldest lines: `k` of them, and no smaller number makes room. */
  lemma {:induction false} EvictIsMinimal(lines: seq<Line>, len: nat) returns (k: nat)
    requires len <= MAX_SAVED
    ensures k <= |lines| && Evict(lines, len) == lines[k..]
    ensures Fits(lines[k..], len)
    ensures forall j :: 0 <= j < k ==> !Fits(lines[j..], len)
  {
    if lines == [] || Fits(lines, len) {
      k := 0;
    } else {
      var rest := EvictIsMinimal(lines[1..], len);
      k := rest + 1;
      assert lines[1..][rest..] == lines[k..];
      forall j | 0 <= j < k
        ensures !Fits(lines[j..], len)
      {
        if j > 0 {
          assert lines[1..][j - 1..] == lines[j..];
        } else {
          assert lines[0..] == lines;
        }
      }
    }
  }

  lemma {:induction false} SaveKeepsProper(lines: seq<Line>, line: Line)
    requires Proper(lines) && line != []
    ensures Proper(Save(lines, line))
  {
    if |line| <= MAX_SAVED {
      var k := EvictIsMinimal(lines, |line|);
      UsedAppend(lines[k..], [line]);
    }
  }

  // ---------------------------------------------------------------- whole runs of saves

  function SaveAll(lines: seq<Line>, saves: seq<Line>): seq<Line> {
    if saves == [] then lines
    else Save(SaveAll(lines, saves[..|saves| - 1]), saves[|saves| - 1])
  }

  /** The saves that are short enough to be kept at all. */
  function ShortOnes(saves: seq<Line>): seq<Line> {
    if saves == [] then []
    else
      var last := saves[|saves| - 1];
      ShortOnes(saves[..|saves| - 1]) + if |last| <= 62 then [last] else []
  }

  /** `kept` is the longest suffix of `all` whose records fit 64 bytes beside the terminator. */
  ghost predicate LongestFittingSuffix(kept: seq<Line>, all: seq<Line>) {
    && |kept| <= |all|
    && kept == all[|all| - |kept|..]
    && Used(kept) <= 63
    && forall j :: 0 <= j < |all| - |kept| ==> Used(all[j..]) > 63
  }

  /** After any run of saves the history is exactly the longest run of most recent (short) lines that fits. */
  lemma {:induction false} HistoryIsLongestFittingSuffix(saves: seq<Line>)
    requires forall i :: 0 <= i < |saves| ==> saves[i] != []
    ensures LongestFittingSuffix(SaveAll([], saves), ShortOnes(saves))
  {
    if saves != [] {
      var n := |saves| - 1;
      HistoryIsLongestFittingSuffix(saves[..n]);
      var before, all, last := SaveAll([], saves[..n]), ShortOnes(saves[..n]), saves[n];
      if |last| <= MAX_SAVED {
        SaveExtendsSuffix(before, all, last);
      } else {
        assert all + [] == all;
      }
    }
  }

  lemma {:induction false} SaveExtendsSuffix(kept: seq<Line>, all: seq<Line>, line: Line)
    requires LongestFittingSuffix(kept, all) && Savable(line)
    ensures LongestFittingSuffix(Save(kept, line), all + [line])
  {
    var k := EvictIsMinimal(kept, |line|);
    UsedAppend(kept[k..], [line]);
    var gone := |all| - |kept|;
    assert (all + [line])[gone + k..] == kept[k..] + [line];
    forall j | 0 <= j < gone + k
      ensures Used((all + [line])[j..]) >= RING_LEN
    {
      assert (all + [line])[j..] == all[j..] + [line];
      UsedAppend(all[j..], [line]);
      if j >= gone {
        assert all[j..] == kept[j - gone..];
        assert !Fits(kept[j - gone..], |line|);
      }
    }
  }

  // ---------------------------------------------------------------- navigation

  datatype Option<T> = None | Some(value: T)

  datatype Direction = Up | Down

  /** What one Up or Down shows (`None`: the oldest line is already shown) and how far back that is. */
  datatype Recall = Recall(shown: Option<Line>, cur: nat)

  /** The line `back` steps back in time; zero steps back is the empty line. */
  function LineBack(lines: seq<Line>, back: nat): Line
    requires back <= |lines|
  {
    if back == 0 then "" else lines[|lines| - back]
  }

  function Navigate(lines: seq<Line>, cur: nat, dir: Direction): Recall
    requires cur <= |lines|
  {
    match dir
    case Up => if cur == |lines| then Recall(None, cur) else Recall(Some(LineBack(lines, cur + 1)), cur + 1)
    case Down =>
      var back := if cur == 0 then 0 else cur - 1;
      Recall(Some(LineBack(lines, back)), back)
  }

  /** `k` presses in one direction. */
  function Press(lines: seq<Line>, cur: nat, dir: Direction, k: nat): (r: Recall)
    requires cur <= |lines| && k > 0
    ensures r.cur <= |lines|
    decreases k
  {
    if k == 1 then Navigate(lines, cur, dir)
    else Navigate(lines, Press(lines, cur, dir, k - 1).cur, dir)
  }

  lemma {:induction false} UpsWalkBack(lines: seq<Line>, cur: nat, k: nat)
    requires cur <= |lines| && k > 0
    ensures var r := Press(lines, cur, Up, k);
            && r.cur == (if cur + k <= |lines| then cur + k else |lines|)
            && r.shown == if cur + k <= |lines| then Some(lines[|lines| - cur - k]) else None
  {
    if k > 1 {
      UpsWalkBack(lines, cur, k - 1);
    }
  }

  lemma {:induction false} DownsWalkForward(lines: seq<Line>, cur: nat, j: nat)
    requires cur <= |lines| && j > 0
    ensures var r := Press(lines, cur, Down, j);
            && r.cur == (if j < cur then cur - j else 0)
            && r.shown == Some(if j < cur then lines[|lines| - cur + j] else "")
  {
    if j > 1 {
      DownsWalkForward(lines, cur, j - 1);
    }
  }

  /** `k` Ups from the prompt and then `j` Downs show line `count - (k - j)`. */
  lemma {:induction false} UpsThenDowns(lines: seq<Line>, k: nat, j: nat)
    requires 0 < j < k <= |lines|
    ensures var up := Press(lines, 0, Up, k);
            Press(lines, up.cur, Down, j) == Recall(Some(lines[|lines| - (k - j)]), k - j)
  {
    UpsWalkBack(lines, 0, k);
    DownsWalkForward(lines, k, j);
  }
}
