/** Worked examples of the bot's behaviour on small concrete inputs. */
module Scenarios {
  import opened Wrappers
  import opened Decimal
  import opened AppTypes
  import opened Differ
  import opened Formatter
  import opened FidList
  import opened Publisher
  import opened Cycle

  /** One rename out of two rows: a single record, announced in a single
      cast under the singular header. */
  lemma OneRenameOneCast()
    ensures Diff([Row(1, "alice"), Row(2, "bob")], [Row(1, "alice.eth"), Row(2, "bob")])
            == [UsernameHistory("alice", "alice.eth")]
    ensures CreateMessages([UsernameHistory("alice", "alice.eth")])
            == ["1" + " new user has joined the .eth family!\n" + "@alice changed to alice.eth\n"]
  {
    var held := [Row(1, "alice"), Row(2, "bob")];
    assert held[..1] == [Row(1, "alice")];
    assert held[..1][..0] == [];
    var header := FirstLineText(1);
    var line := ChangeLine(UsernameHistory("alice", "alice.eth"));
    var changes := [UsernameHistory("alice", "alice.eth")];
    assert Lines(changes) == [line];
    assert CreateMessages(changes) == Pack([header], [line]);
    assert [line][1..] == [];
    SingularHeader();
    AliceLine();
    assert Pack([header], [line]) == Step([header], line) == [header + line];
  }

  lemma SingularHeader()
    ensures FirstLineText(1) == "1" + " new user has joined the .eth family!\n"
  {
    assert NatToString(1) == "1";
  }

  lemma AliceLine()
    ensures ChangeLine(UsernameHistory("alice", "alice.eth")) == "@alice changed to alice.eth\n"
  {
  }

  /** Two renames switch the header to the plural form. */
  lemma TwoRenamesPluralHeader()
    ensures FirstLineText(2) == "2" + " new users have joined the .eth family!\n"
  {
    assert NatToString(2) == "2";
  }

  /** The fid list keeps the separator after the last fid. */
  lemma FidListKeepsTrailingSeparator()
    ensures CreateFidListString([Row(10, "a"), Row(11, "b"), Row(12, "c")]) == "(10, 11, 12, )"
    ensures CreateFidListString([]) == "()"
  {
    assert NatToString(10) == "10" by { assert NatToString(1) == "1"; assert NatToString(0) == "0"; }
    assert NatToString(11) == "11" by { assert NatToString(1) == "1"; }
    assert NatToString(12) == "12" by { assert NatToString(1) == "1"; assert NatToString(2) == "2"; }
    var rows := [Row(10, "a"), Row(11, "b"), Row(12, "c")];
    assert rows[1..] == [Row(11, "b"), Row(12, "c")];
    assert rows[1..][1..] == [Row(12, "c")];
    assert rows[1..][1..][1..] == [];
  }

  /** A lookup that returns fewer rows than are held makes the differ
      fail; nothing is announced, and the held rows are still replaced. */
  lemma ShortLookupAnnouncesNothing()
    ensures CheckDifferingUsernames([Row(1, "alice"), Row(2, "bob")], Some([Row(1, "alice.eth")])).None?
    ensures CronFunc(Some([Row(1, "alice"), Row(2, "bob")]),
                     Env(Some([Row(1, "alice.eth")]), [Some("h0")], None)).calls == []
    ensures CronFunc(Some([Row(1, "alice"), Row(2, "bob")]),
                     Env(Some([Row(1, "alice.eth")]), [Some("h0")], None)).held.None?
  {
  }

  /** A two-cast thread: the reply carries the hash of the root cast. */
  lemma SecondCastRepliesToFirst(a: string, b: string)
    ensures CastDailyMessages([a, b], [Some("0xroot"), Some("0xreply")]).calls
            == [Call(a, None), Call(b, Some("0xroot"))]
  {
  }

  /** The root cast fails: its reply is never attempted. */
  lemma FailedRootStopsThread(a: string, b: string, c: string)
    ensures CastDailyMessages([a, b, c], [None, Some("0xreply")]) == Thread([Call(a, None)], true)
  {
  }

  /** The last reply fails: every reply's result is read, so the chain
      throws although no message follows it. */
  lemma FailedLastReplyThrows(a: string, b: string)
    ensures CastDailyMessages([a, b], [Some("0xroot"), None]) == Thread([Call(a, None), Call(b, Some("0xroot"))], true)
  {
  }
}
