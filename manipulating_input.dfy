/** The keyword replacer `RTDynamicReplacing` of
    Examples/manipulating_input.py: after each bound key it rewrites the
    typed text with an ordered list of replacements and, when that changed
    anything, sends the new text through the session's `edit`. */
module ManipulatingInput {
  import opened PyText
  import opened Terminal
  import DynamicIO

  /** The replacement table, in the dictionary's insertion order. */
  const Replacements: seq<(string, string)> := [("exit", "EXIT"), ("continue", "CONTINUE")]

  /** Applies `text.replace(key, value)` for each pair, first to last. */
  function ApplyAll(text: string, reps: seq<(string, string)>): string
    decreases |reps|
  {
    if reps == [] then text else ApplyAll(Replace(text, reps[0].0, reps[0].1), reps[1..])
  }

  /** One more pair is one more replacement on the result so far. */
  lemma {:induction false} ApplyAllSnoc(text: string, reps: seq<(string, string)>, r: (string, string))
    ensures ApplyAll(text, reps + [r]) == Replace(ApplyAll(text, reps), r.0, r.1)
    decreases |reps|
  {
    if reps != [] {
      assert (reps + [r])[1..] == reps[1..] + [r];
      ApplyAllSnoc(Replace(text, reps[0].0, reps[0].1), reps[1..], r);
    }
  }

  /** The table of this example is two replacements, one after the other. */
  lemma ApplyReplacements(text: string)
    ensures ApplyAll(text, Replacements) ==
            Replace(Replace(text, "exit", "EXIT"), "continue", "CONTINUE")
  {
    var once := Replace(text, "exit", "EXIT");
    assert Replacements[1..] == [("continue", "CONTINUE")];
    assert ApplyAll(text, Replacements) == ApplyAll(once, Replacements[1..]);
    assert [("continue", "CONTINUE")][1..] == [];
  }

  /** Every key and every value of the table is non-empty. */
  predicate NonEmptyPairs(reps: seq<(string, string)>)
  {
    forall k | 0 <= k < |reps| :: reps[k].0 != [] && reps[k].1 != []
  }

  /** An empty text stays empty, and a non-empty one stays non-empty, when
      no key and no value is empty. */
  lemma {:induction false} ApplyAllKeepsEmptiness(text: string, reps: seq<(string, string)>)
    requires NonEmptyPairs(reps)
    ensures (ApplyAll(text, reps) == []) == (text == [])
    decreases |reps|
  {
    if reps != [] {
      var next := Replace(text, reps[0].0, reps[0].1);
      if text != [] {
        ReplaceKeepsNonEmpty(text, reps[0].0, reps[0].1);
      }
      assert NonEmptyPairs(reps[1..]) by {
        forall k | 0 <= k < |reps| - 1 ensures reps[1..][k].0 != [] && reps[1..][k].1 != [] {
          assert reps[1..][k] == reps[k + 1];
        }
      }
      ApplyAllKeepsEmptiness(next, reps[1..]);
    }
  }

  /** Because the table holds no empty value, an edit that is issued never
      carries the empty text that `edit` refuses. */
  lemma ChangedTextIsNonEmpty(text: string)
    requires ApplyAll(text, Replacements) != text
    ensures ApplyAll(text, Replacements) != []
  {
    ApplyAllKeepsEmptiness(text, Replacements);
  }

  /** A text holding neither keyword is left as it is. */
  lemma NoKeywordNoChange(text: string)
    requires !Occurs("exit", text) && !Occurs("continue", text)
    ensures ApplyAll(text, Replacements) == text
  {
    ApplyReplacements(text);
    ReplaceFixedIff(text, "exit", "EXIT");
    ReplaceFixedIff(text, "continue", "CONTINUE");
  }

  /** "exit" becomes "EXIT". */
  lemma ExitIsCapitalised()
    ensures ApplyAll("exit", Replacements) == "EXIT"
  {
    ApplyReplacements("exit");
    var s: string := "exit";
    assert s <= s && s[|s|..] == [];
    assert Replace(s, s, "EXIT") == "EXIT" + Replace([], s, "EXIT");
    assert Replace(s, s, "EXIT") == "EXIT";
    assert !Occurs("continue", "EXIT");
    ReplaceFixedIff("EXIT", "continue", "CONTINUE");
  }

  class RTDynamicReplacing {
    /** The line editor whose text is rewritten. */
    var session: DynamicIO.DynamicInput
    /** The replacement table. */
    var replacements: seq<(string, string)>

    ghost predicate Valid()
      reads this, session
    {
      session.Valid() && NonEmptyPairs(replacements)
    }

    constructor ()
      ensures Valid() && fresh(session)
      ensures replacements == Replacements
      ensures session.buffer == [] && session.out == []
    {
      session := new DynamicIO.DynamicInput();
      replacements := Replacements;
    }

    /** `check`: applies the replacements to `text` in order and, when the
        result differs from `text`, edits the session, stepping back over
        `|text|` cells. An unchanged text issues no edit. */
    method Check(text: string)
      requires Valid()
      modifies session`buffer, session`out
      ensures Valid()
      ensures var changed := ApplyAll(text, replacements);
        if changed == text then
          session.buffer == old(session.buffer) && session.out == old(session.out)
        else
          && session.buffer == SliceFrom(old(session.buffer), |text|) + changed
          && session.out == old(session.out) + DynamicIO.EditWrites(|text|, changed)
    {
      var current := text;
      for i := 0 to |replacements|
        invariant current == ApplyAll(text, replacements[..i])
        invariant unchanged(session)
      {
        ApplyAllSnoc(text, replacements[..i], replacements[i]);
        assert replacements[..i + 1] == replacements[..i] + [replacements[i]];
        current := Replace(current, replacements[i].0, replacements[i].1);
      }
      assert replacements[..|replacements|] == replacements;
      if current == text {
        return;
      }
      ApplyAllKeepsEmptiness(text, replacements);
      var error := session.Edit(|text|, current);
    }
  }

  /** Typing "exit" and pressing the bound key rewrites the line to "EXIT":
      the session steps back four cells and prints the new text. */
  method ExitScenario() returns (buffer: string, written: seq<Op>)
    ensures buffer == "EXIT"
    ensures written == DynamicIO.EditWrites(4, "EXIT")
  {
    var rt := new RTDynamicReplacing();
    var typed := rt.session.HandleRegular('e');
    typed := rt.session.HandleRegular('x');
    typed := rt.session.HandleRegular('i');
    typed := rt.session.HandleRegular('t');
    var echoed := rt.session.out;
    ExitIsCapitalised();
    rt.Check("exit");
    buffer := rt.session.buffer;
    written := rt.session.out[|echoed|..];
  }
}
