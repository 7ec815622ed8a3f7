/** The prefix completer `call_to_example` of Examples/autocompletion.py,
    which src/dynamic-inputs.py also carries: the last space-separated word
    of the input is completed to the first choice that starts with it. */
module Autocompletion {
  import opened PyText

  /** The candidate words, in the order they are tried. */
  const Choices: seq<string> := ["apple", "apricot", "banana", "blueberry", "blackberry", "orange"]

  /** `s.split(' ')[::-1][0]`: the text after the last space. */
  function LastWord(s: string): string
  {
    Reversed(Split(s, ' '))[0]
  }

  /** The word matched is the longest space-free suffix of the input. */
  lemma LastWordIsMaximalSuffix(s: string)
    ensures var w := LastWord(s);
      && |w| <= |s| && s[|s| - |w|..] == w
      && ' ' !in w
      && (|w| < |s| ==> s[|s| - |w| - 1] == ' ')
  {
    assert LastWord(s) == LastPiece(s, ' ');
    LastPieceIsMaximalSuffix(s, ' ');
  }

  /** A text without spaces is its own last word. */
  lemma LastWordOfWord(s: string)
    requires ' ' !in s
    ensures LastWord(s) == s
  {
    SplitSingle(s, ' ');
    JoinSplit(s, ' ');
  }

  /** Whatever precedes the last space is ignored. */
  lemma LastWordAfterSpace(p: string, w: string)
    requires ' ' !in w
    ensures LastWord(p + [' '] + w) == w
  {
    var front := Split(p, ' ');
    var pieces := front + [w];
    JoinSplit(p, ' ');
    JoinSnoc(front, w, ' ');
    assert forall k | 0 <= k < |pieces| :: ' ' !in pieces[k] by {
      forall k | 0 <= k < |pieces| ensures ' ' !in pieces[k] {
        if k < |front| {
          assert pieces[k] == front[k];
        }
      }
    }
    SplitJoin(pieces, ' ');
  }

  /** The loop over the choices: the rest of the first choice that starts
      with `word`, or the empty string when none does. */
  function FirstCompletion(word: string, choices: seq<string>): string
  {
    if choices == [] then []
    else if word <= choices[0] then choices[0][|word|..]
    else FirstCompletion(word, choices[1..])
  }

  /** `call_to_example`. */
  function CallToExample(s: string): string
  {
    FirstCompletion(LastWord(s), Choices)
  }

  /** When some choice starts with `word`, the result completes `word` to the
      first such choice. */
  lemma {:induction false} FirstCompletionFound(word: string, choices: seq<string>, k: nat)
    requires k < |choices| && word <= choices[k]
    requires forall j | 0 <= j < k :: !(word <= choices[j])
    ensures word + FirstCompletion(word, choices) == choices[k]
    ensures |FirstCompletion(word, choices)| == |choices[k]| - |word|
  {
    if k > 0 {
      assert !(word <= choices[0]);
      FirstCompletionFound(word, choices[1..], k - 1);
    }
  }

  /** When no choice starts with `word`, the result is empty. */
  lemma {:induction false} FirstCompletionNone(word: string, choices: seq<string>)
    requires forall j | 0 <= j < |choices| :: !(word <= choices[j])
    ensures FirstCompletion(word, choices) == []
  {
    if choices != [] {
      assert !(word <= choices[0]);
      FirstCompletionNone(word, choices[1..]);
    }
  }

  /** The first match wins: "ap" becomes "apple", not "apricot". */
  lemma FirstMatchWins()
    ensures CallToExample("ap") == "ple"
  {
    LastWordOfWord("ap");
    FirstCompletionFound("ap", Choices, 0);
  }

  /** An empty last word (empty input, or a trailing space) matches every
      choice, so the first one is offered whole. */
  lemma EmptyWordOffersFirstChoice(s: string)
    requires s == [] || s[|s| - 1] == ' '
    ensures CallToExample(s) == "apple"
  {
    LastWordIsMaximalSuffix(s);
    assert LastWord(s) == [];
    FirstCompletionFound([], Choices, 0);
  }

  /** Only the last word is matched: "I like bl" completes "bl" to the first
      choice starting with it, "blueberry". */
  lemma LastWordIsMatched()
    ensures CallToExample("I like bl") == "ueberry"
  {
    assert "I like bl" == "I like" + [' '] + "bl";
    LastWordAfterSpace("I like", "bl");
    forall j | 0 <= j < 3 ensures !("bl" <= Choices[j]) {
      assert Choices[j][0] != 'b' || Choices[j][1] != 'l';
    }
    FirstCompletionFound("bl", Choices, 3);
  }

  /** A word no choice starts with gets no completion. */
  lemma NoMatchNoCompletion()
    ensures CallToExample("kiwi") == ""
  {
    LastWordOfWord("kiwi");
    forall j | 0 <= j < |Choices| ensures !("kiwi" <= Choices[j]) {
      assert Choices[j][0] != 'k';
    }
    FirstCompletionNone("kiwi", Choices);
  }
}
