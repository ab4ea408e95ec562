/** Concrete runs of the model on small tables. */
module Scenarios {
  import opened PhpStrings
  import opened FindReplace

  const Never := Stamp("2024-01-01 00:00:00", "2024-01-01 00:00:00")
  const Now := Stamp("2024-06-01 12:00:00", "2024-06-01 10:00:00")

  function Page(id: nat, payload: string): Row {
    Row(id, "Contact", PublishStatus, ElementorDataKey, payload, Never)
  }

  /** A number that occurs twice on one page: the preview counts two
      occurrences there, the execute rewrites both and reports one page. */
  lemma PhoneNumberScenario()
    ensures Matches([Page(7, "01 01")], "01", true) == [Match(7, "Contact", 2)]
    ensures Rewrite(Page(7, "01 01"), "01", "02", true, Now) == Page(7, "02 02").(modified := Now)
    ensures RewriteCount([Page(7, "01 01")], "01", "02", true) == 1
  {
    var s := "01 01";
    assert s[..2] == "01" && s[2..] == " 01";
    assert " 01"[..2] == " 0" && " 01"[1..] == "01";
    assert "01"[..2] == "01" && "01"[2..] == [];
    assert CountMatches("01", "01", false) == 1;
    assert CountMatches(" 01", "01", false) == 1;
    assert CountMatches(s, "01", false) == 2;
    assert StrReplace("01", "02", "01") == "02";
    assert StrReplace("01", "02", " 01") == " 02";
    assert StrReplace("01", "02", s) == "02 02";
    assert [Page(7, s)][..0] == [];
  }

  /** Case-insensitively, "hi" and "HI" both count as "Hi". */
  lemma CaseInsensitiveScenario()
    ensures Occurrences("hi HI", "Hi", false) == 2
    ensures Occurrences("hi HI", "Hi", true) == 0
  {
    var s := "hi HI";
    assert ToLower("Hi") == "hi" && ToLower("hi") == "hi" && ToLower("HI") == "hi";
    assert ToLower("i ") == "i " && ToLower(" H") == " h";
    assert s[..2] == "hi" && s[2..] == " HI" && s[1..] == "i HI";
    assert "i HI"[..2] == "i " && "i HI"[1..] == " HI";
    assert " HI"[..2] == " H" && " HI"[1..] == "HI";
    assert "HI"[..2] == "HI" && "HI"[2..] == [] && "HI"[1..] == "I";
    assert CountMatches("HI", "Hi", true) == 1;
    assert CountMatches(" HI", "Hi", true) == 1;
    assert CountMatches(s, "Hi", true) == 2;
    assert CountMatches("HI", "Hi", false) == 0;
    assert CountMatches(" HI", "Hi", false) == 0;
    assert CountMatches("i HI", "Hi", false) == 0;
    assert CountMatches(s, "Hi", false) == 0;
  }

  /** Case-insensitively, a listed page need not be written: the match
      "AB" replaced by "AB" leaves the payload as it was, so the execute
      reports fewer pages than the preview listed. */
  lemma CaseInsensitiveCountsCanDiffer()
    ensures |Matches([Page(1, "AB")], "ab", false)| == 1
    ensures RewriteCount([Page(1, "AB")], "ab", "AB", false) == 0
  {
  }
}
