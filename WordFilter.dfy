/**
 * The filtered-word list: administrators add and remove words, which are kept
 * lower-cased in one process-wide set and saved whenever the set changes.
 */
module WordFilter {

  /** `str.lower()` on one character, for the ASCII letters. */
  function LowerChar(c: char): char
  {
    if 'A' <= c <= 'Z' then (c as int - 'A' as int + 'a' as int) as char else c
  }

  /** `str.lower()`, for the ASCII letters. */
  function Lower(s: string): (r: string)
    ensures |r| == |s|
    ensures forall i :: 0 <= i < |s| ==> r[i] == LowerChar(s[i])
    decreases |s|
  {
    if s == [] then [] else [LowerChar(s[0])] + Lower(s[1..])
  }

  /** A lower-cased word has no upper-case ASCII letter. */
  lemma {:induction false} LowerHasNoUpper(s: string)
    ensures forall i :: 0 <= i < |s| ==> !('A' <= Lower(s)[i] <= 'Z')
    decreases |s|
  {
    if s != [] {
      LowerHasNoUpper(s[1..]);
      assert forall i :: 1 <= i < |s| ==> Lower(s)[i] == Lower(s[1..])[i - 1];
    }
  }

  /** Lower-casing twice is lower-casing once. */
  lemma {:induction false} LowerIdempotent(s: string)
    ensures Lower(Lower(s)) == Lower(s)
    decreases |s|
  {
    if s != [] {
      LowerIdempotent(s[1..]);
      var t := Lower(s);
      assert t[1..] == Lower(s[1..]);
    }
  }

  /** A word with an upper-case letter differs from every lower-cased word, so
      `removeword` can never take it out of the set (such a word only gets there
      from a hand-edited word file, which is loaded as it is). */
  lemma CapitalisedWordIsNeverRemoved(words: set<string>, w: string, word: string)
    requires w in words
    requires exists i :: 0 <= i < |w| && 'A' <= w[i] <= 'Z'
    ensures w in words - {Lower(word)}
  {
    LowerHasNoUpper(word);
    var i :| 0 <= i < |w| && 'A' <= w[i] <= 'Z';
    if |w| == |Lower(word)| {
      assert w[i] != Lower(word)[i];
    }
  }

  /** `FILTERED_WORDS`, with the replies of the commands that maintain it. */
  class FilteredWords {
    var words: set<string>

    /** The set as loaded from the word file at start-up, taken as it is. */
    constructor (loaded: set<string>)
      ensures words == loaded
    {
      words := loaded;
    }

    /** `addword`: insert the lower-cased word unless it is already there. The
        set is saved (`saved`) exactly when it changed. */
    method AddWord(word: string) returns (reply: string, saved: bool)
      modifies this
      ensures words == old(words) + {Lower(word)}
      ensures saved <==> Lower(word) !in old(words)
      ensures reply == if saved then "Added '" + Lower(word) + "' to the word filter."
                       else "The word '" + Lower(word) + "' is already filtered."
    {
      var w := Lower(word);
      if w in words {
        reply, saved := "The word '" + w + "' is already filtered.", false;
      } else {
        words := words + {w};
        reply, saved := "Added '" + w + "' to the word filter.", true;
      }
    }

    /** `removeword`: delete the lower-cased word if it is there. The set is
        saved (`saved`) exactly when it changed. */
    method RemoveWord(word: string) returns (reply: string, saved: bool)
      modifies this
      ensures words == old(words) - {Lower(word)}
      ensures saved <==> Lower(word) in old(words)
      ensures reply == if saved then "Removed '" + Lower(word) + "' from the filter."
                       else "The word '" + Lower(word) + "' is not in the filter."
    {
      var w := Lower(word);
      if w !in words {
        reply, saved := "The word '" + w + "' is not in the filter.", false;
      } else {
        words := words - {w};
        reply, saved := "Removed '" + w + "' from the filter.", true;
      }
    }
  }
}
