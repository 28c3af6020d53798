/** Expected outputs of StringUtil on the inputs its unit tests use. */
module StringUtilExamples {
  import opened Wrappers
  import opened StringUtil

  lemma TruncateExamples()
    ensures Truncate(Some("the quick brown fox"), 100, false, false) == Success("the quick brown fox")
    ensures Truncate(Some("the quick brown fox"), 100, false, true) == Success("the quick brown fox")
    ensures Truncate(Some("the quick brown fox"), 100, true, false) == Success("the quick brown fox")
    ensures Truncate(Some("the quick brown fox"), 13, false, false) == Success("the quick bro")
    ensures Truncate(Some("the quick brown fox"), 13, false, true) == Success("the quick")
    ensures Truncate(Some("the quick brown fox"), 13, true, false) == Success("the quick ...")
    ensures Truncate(Some("the quick brown fox"), 13, true, true) == Success("the quick...")
  {
    var s := "the quick brown fox";
    assert s[..13] == "the quick bro" && s[..10] == "the quick " && s[..9] == "the quick";
    assert LastIndexOf(s, ' ', 10) == 9;
    assert LastIndexOf(s, ' ', 13) == 9 by {
      assert LastIndexOf(s, ' ', 13) == LastIndexOf(s, ' ', 12) == LastIndexOf(s, ' ', 11);
      assert LastIndexOf(s, ' ', 11) == LastIndexOf(s, ' ', 10);
    }
    assert s[..10] + Dots == "the quick ..." && s[..9] + Dots == "the quick...";
  }

  /** A space at the very start is not a word boundary to cut at. */
  lemma TruncateLeadingSpace()
    ensures Truncate(Some(" thequickbrownfox"), 5, false, true) == Success(" theq")
    ensures Truncate(Some(" thequickbrownfox"), 5, true, true) == Success(" t...")
  {
    var t := " thequickbrownfox";
    assert t[..5] == " theq" && t[..2] == " t" && t[..2] + Dots == " t...";
    assert LastIndexOf(t, ' ', 2) == 0 by {
      assert LastIndexOf(t, ' ', 2) == LastIndexOf(t, ' ', 1) == LastIndexOf(t, ' ', 0);
    }
    assert LastIndexOf(t, ' ', 5) == 0 by {
      assert LastIndexOf(t, ' ', 5) == LastIndexOf(t, ' ', 4) == LastIndexOf(t, ' ', 3);
      assert LastIndexOf(t, ' ', 3) == LastIndexOf(t, ' ', 2) == LastIndexOf(t, ' ', 1);
    }
  }

  lemma TruthyExamples()
    ensures Truthy(Some("y")) == Success(true) && Truthy(Some("yes")) == Success(true)
    ensures Truthy(Some("1")) == Success(true)
    ensures Truthy(Some("n")) == Success(false) && Truthy(Some("no")) == Success(false)
    ensures Truthy(Some("0")) == Success(false)
  {
    assert ToLower("y") == "y" && ToLower("yes") == "yes" && ToLower("1") == "1";
    assert ToLower("n") == "n" && ToLower("no") == "no" && ToLower("0") == "0";
  }
}
