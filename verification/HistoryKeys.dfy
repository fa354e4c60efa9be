/** Walking the history with keys: what any number of ^P and ^N presses puts on the line. */
module HistoryKeys {
  import opened HistoryQueue
  import opened LineEditor
  import opened CursorRuns

  predicate SearchKey(key: char, dir: Direction) {
    key == if dir == Up then KEY_DLE else KEY_SO
  }

  /** The history as before, as far back as `r` says, and the line `r` shows, if any, with the cursor at its end. */
  predicate Follows(now: State, lines: seq<Line>, r: Recall) {
    && now.lines == lines && now.cur == r.cur && !now.escape
    && (r.shown.Some? ==> now.zip.left == r.shown.value && now.zip.right == "")
  }

  lemma {:induction false} KeySearches(st: State, key: char, dir: Direction)
    requires Inv(st) && !st.escape && SearchKey(key, dir)
    ensures Step(st, Event(key, "")) == Search(st, dir)
  {
  }

  /** ^P at the oldest line does nothing at all. */
  lemma {:induction false} UpKeyAtOldest(st: State)
    requires Inv(st) && !st.escape && st.cur == |st.lines|
    ensures Step(st, Event(KEY_DLE, "")) == Silent(st)
  {
  }

  lemma {:induction false} SearchFollows(st: State, dir: Direction)
    requires Inv(st) && !st.escape
    ensures Follows(Search(st, dir).state, st.lines, Navigate(st.lines, st.cur, dir))
  {
  }

  /** One more press is one more search. */
  lemma {:induction false} OneMoreSearch(st: State, key: char, dir: Direction, k: nat)
    requires Inv(st) && SearchKey(key, dir) && k > 0 && !Run(st, Presses(key, k - 1)).state.escape
    ensures Run(st, Presses(key, k)).state == Search(Run(st, Presses(key, k - 1)).state, dir).state
  {
    OneMorePress(st, key, k);
    KeySearches(Run(st, Presses(key, k - 1)).state, key, dir);
  }

  lemma {:induction false} NoPress(st: State, key: char)
    requires Inv(st)
    ensures Run(st, Presses(key, 0)).state == st
  {
    assert Presses(key, 0) == [];
  }

  /** Any number of presses does to the line and the history what as many steps do on the queue. */
  lemma {:induction false} KeysFollowQueue(st: State, key: char, dir: Direction, k: nat) returns (now: State)
    requires Inv(st) && !st.escape && SearchKey(key, dir) && k > 0
    ensures now == Run(st, Presses(key, k)).state && Inv(now)
    ensures Follows(now, st.lines, Press(st.lines, st.cur, dir, k))
  {
    var mid := st;
    if k == 1 {
      NoPress(st, key);
    } else {
      mid := KeysFollowQueue(st, key, dir, k - 1);
    }
    now := Run(st, Presses(key, k)).state;
    OneMoreSearch(st, key, dir, k);
    SearchFollows(mid, dir);
  }

  /** What `k` steps up and `j` down show on the queue. */
  function UpThenDown(lines: seq<Line>, cur: nat, k: nat, j: nat): Recall
    requires cur <= |lines| && k > 0 && j > 0
  {
    Press(lines, Press(lines, cur, Up, k).cur, Down, j)
  }

  /** `k` times ^P and then `j` times ^N do the same to the line. */
  lemma {:induction false} KeysFollowBothWays(st: State, k: nat, j: nat) returns (now: State)
    requires Inv(st) && !st.escape && k > 0 && j > 0
    ensures now == Run(Run(st, Presses(KEY_DLE, k)).state, Presses(KEY_SO, j)).state
    ensures Follows(now, st.lines, UpThenDown(st.lines, st.cur, k, j))
  {
    var up := KeysFollowQueue(st, KEY_DLE, Up, k);
    now := KeysFollowQueue(up, KEY_SO, Down, j);
  }

  /** From the prompt that is line `count - (k - j)`. */
  lemma {:induction false} UpThenDownIs(lines: seq<Line>, k: nat, j: nat)
    requires 0 < j < k <= |lines|
    ensures UpThenDown(lines, 0, k, j) == Recall(Some(lines[|lines| - (k - j)]), k - j)
  {
    UpsThenDowns(lines, k, j);
  }
}
