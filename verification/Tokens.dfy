/** Words of a line, and the tokenizer that finds them in the edit buffer. */
module Tokens {
  import opened Config

  /** A word begins at `i`: a non-separator that nothing or a separator precedes. */
  predicate IsWordStart(text: string, sep: char, i: nat) {
    i < |text| && text[i] != sep && (i == 0 || text[i - 1] == sep)
  }

  function WordStarts(text: string, sep: char): seq<nat> {
    if text == "" then []
    else
      var last := |text| - 1;
      WordStarts(text[..last], sep) + if IsWordStart(text, sep, last) then [last] else []
  }

  /** `starts` holds, in order and once each, exactly the places where a word begins. */
  ghost predicate ListsStarts(starts: seq<nat>, text: string, sep: char) {
    && (forall k :: 0 <= k < |starts| ==> IsWordStart(text, sep, starts[k]))
    && (forall j, k :: 0 <= j < k < |starts| ==> starts[j] < starts[k])
    && (forall i: nat :: IsWordStart(text, sep, i) ==> i in starts)
  }

  /** The longest separator-free stretch from `i` on. */
  function WordAt(text: string, sep: char, i: nat): string
    requires i <= |text|
    decreases |text| - i
  {
    if i == |text| || text[i] == sep then "" else [text[i]] + WordAt(text, sep, i + 1)
  }

  function Words(text: string, sep: char): (words: seq<string>)
    ensures |words| == |WordStarts(text, sep)|
  {
    StartsAreExact(text, sep);
    var starts := WordStarts(text, sep);
    seq(|starts|, k requires 0 <= k < |starts| => WordAt(text, sep, starts[k]))
  }

  lemma {:induction false} StartsAreExact(text: string, sep: char)
    ensures ListsStarts(WordStarts(text, sep), text, sep)
  {
    if text != "" {
      var last := |text| - 1;
      StartsAreExact(text[..last], sep);
      StartsExtend(WordStarts(text[..last], sep), text, sep);
    }
  }

  lemma {:induction false} StartsExtend(before: seq<nat>, text: string, sep: char)
    requires text != "" && ListsStarts(before, text[..|text| - 1], sep)
    ensures var last := |text| - 1;
            ListsStarts(before + if IsWordStart(text, sep, last) then [last] else [], text, sep)
  {
    var last := |text| - 1;
    assert forall i: nat :: i < last ==> (IsWordStart(text, sep, i) <==> IsWordStart(text[..last], sep, i));
  }

  /** A word is non-empty, free of separators, and bounded by a separator or an end of the text on both sides. */
  lemma {:induction false} WordIsMaximal(text: string, sep: char, k: nat)
    requires k < |Words(text, sep)|
    ensures var i, word := WordStarts(text, sep)[k], Words(text, sep)[k];
            && word != "" && sep !in word
            && i + |word| <= |text| && text[i..i + |word|] == word
            && (i == 0 || text[i - 1] == sep)
            && (i + |word| == |text| || text[i + |word|] == sep)
  {
    StartsAreExact(text, sep);
    var starts := WordStarts(text, sep);
    assert IsWordStart(text, sep, starts[k]);
    RunIsMaximal(text, sep, starts[k]);
  }

  lemma {:induction false} RunIsMaximal(text: string, sep: char, i: nat)
    requires i <= |text|
    ensures var run := WordAt(text, sep, i);
            && sep !in run && i + |run| <= |text| && text[i..i + |run|] == run
            && (i + |run| == |text| || text[i + |run|] == sep)
    decreases |text| - i
  {
    if i < |text| && text[i] != sep {
      RunIsMaximal(text, sep, i + 1);
      var run := WordAt(text, sep, i);
      assert text[i..i + |run|] == [text[i]] + text[i + 1..i + |run|];
    }
  }

  /** Separator-free text that a separator follows is the whole stretch. */
  lemma {:induction false} RunIs(text: string, sep: char, i: nat, run: string)
    requires i + |run| < |text| && text[i..i + |run|] == run && text[i + |run|] == sep && sep !in run
    ensures WordAt(text, sep, i) == run
    decreases |run|
  {
    if run != "" {
      assert text[i] == run[0] && text[i + 1..i + |run|] == run[1..];
      RunIs(text, sep, i + 1, run[1..]);
    }
  }

  lemma {:induction false} PrefixStarts(text: string, sep: char, i: nat)
    requires i < |text|
    ensures WordStarts(text[..i + 1], sep)
            == WordStarts(text[..i], sep) + if IsWordStart(text, sep, i) then [i] else []
  {
    assert text[..i + 1][..i] == text[..i];
  }

  /** Goes to the next byte that is not zero. */
  method SkipSeparators(cmdline: array<char>, from: nat, limit: nat) returns (ind: nat)
    requires from <= limit < cmdline.Length
    ensures from <= ind <= limit && (ind < limit ==> cmdline[ind] != '\0')
    ensures from < ind ==> cmdline[ind - 1] == '\0'
    ensures WordStarts(cmdline[..limit][..ind], '\0') == WordStarts(cmdline[..limit][..from], '\0')
  {
    ind := from;
    while cmdline[ind] == '\0' && ind < limit
      invariant from <= ind <= limit
      invariant from < ind ==> cmdline[ind - 1] == '\0'
      invariant WordStarts(cmdline[..limit][..ind], '\0') == WordStarts(cmdline[..limit][..from], '\0')
    {
      PrefixStarts(cmdline[..limit], '\0', ind);
      ind := ind + 1;
    }
  }

  /** Goes past the word that begins at `from`. */
  method SkipWord(cmdline: array<char>, from: nat, limit: nat) returns (ind: nat)
    requires from < limit < cmdline.Length && cmdline[from] != '\0'
    ensures from < ind <= limit && (ind < limit ==> cmdline[ind] == '\0')
    ensures WordStarts(cmdline[..limit][..ind], '\0') == WordStarts(cmdline[..limit][..from + 1], '\0')
  {
    ind := from;
    while cmdline[ind] != '\0' && ind < limit
      invariant from <= ind <= limit
      invariant from < ind ==> cmdline[ind - 1] != '\0'
      invariant from < ind ==>
                  WordStarts(cmdline[..limit][..ind], '\0') == WordStarts(cmdline[..limit][..from + 1], '\0')
      decreases limit - ind
    {
      if from < ind {
        PrefixStarts(cmdline[..limit], '\0', ind);
      }
      ind := ind + 1;
    }
  }

  /**
   * Finds where the words in the first `limit` bytes begin. Zero bytes separate words. The token array
   * filling up is an error even when the last token fitted, so seven words are the most that pass.
   */
  method Split(cmdline: array<char>, limit: nat, tknArr: array<nat>) returns (status: int)
    requires limit < cmdline.Length && tknArr.Length == COMMAND_TOKEN_NMB
    modifies tknArr
    ensures var starts := WordStarts(cmdline[..limit], '\0');
            if |starts| >= COMMAND_TOKEN_NMB then status == -1
            else status == |starts| && tknArr[..status] == starts
  {
    ghost var text := cmdline[..limit];
    var i, ind := 0, 0;
    while true
      invariant 0 <= i < COMMAND_TOKEN_NMB && 0 <= ind <= limit
      invariant ind == 0 || cmdline[ind] == '\0'
      invariant tknArr[..i] == WordStarts(text[..ind], '\0')
      decreases limit - ind
    {
      // go to the first byte of a word
      ind := SkipSeparators(cmdline, ind, limit);
      if !(ind < limit) {
        assert text[..ind] == text;
        return i;
      }
      PrefixStarts(text, '\0', ind);
      tknArr[i] := ind;
      i := i + 1;
      assert tknArr[..i] == WordStarts(text[..ind + 1], '\0');
      if i >= COMMAND_TOKEN_NMB {
        MoreText(text, '\0', ind + 1);
        return -1;
      }
      // go to the separator behind the word
      ind := SkipWord(cmdline, ind, limit);
      if !(ind < limit) {
        assert text[..ind] == text;
        return i;
      }
    }
    return i;
  }

  lemma {:induction false} MoreText(text: string, sep: char, n: nat)
    requires n <= |text|
    ensures |WordStarts(text[..n], sep)| <= |WordStarts(text, sep)|
    decreases |text| - n
  {
    if n < |text| {
      PrefixStarts(text, sep, n);
      MoreText(text, sep, n + 1);
    } else {
      assert text[..n] == text;
    }
  }
}
