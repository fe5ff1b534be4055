/** The command loop: how an input line selects a command, and what a sequence of
    input lines does to the vault and prints. */
module Commands {
  import opened Text
  import opened Credentials

  datatype Command =
    | Blank
    | List
    | Add(site: string, user: string, password: string)
    | AddUsage
    | RemoveSite(site: string)
    | Remove(site: string, user: string)
    | RemoveUsage
    | Exit
    | Invalid

  /** The switch of loop: the first token selects the command, the token count the form. */
  function Parse(tokens: seq<string>): (c: Command)
    ensures c == Blank <==> tokens == []
    ensures c == List <==> |tokens| > 0 && tokens[0] == "l"
    ensures c.Add? <==> |tokens| == 4 && tokens[0] == "a"
    ensures c.Add? ==> c == Add(tokens[1], tokens[2], tokens[3])
    ensures c == AddUsage <==> |tokens| > 0 && tokens[0] == "a" && |tokens| != 4
    ensures c.RemoveSite? <==> |tokens| == 2 && tokens[0] == "r"
    ensures c.RemoveSite? ==> c == RemoveSite(tokens[1])
    ensures c.Remove? <==> |tokens| == 3 && tokens[0] == "r"
    ensures c.Remove? ==> c == Remove(tokens[1], tokens[2])
    ensures c == RemoveUsage <==> |tokens| > 0 && tokens[0] == "r" && |tokens| != 2 && |tokens| != 3
    ensures c == Exit <==> |tokens| > 0 && tokens[0] == "x"
    ensures c == Invalid <==> |tokens| > 0 && tokens[0] !in {"l", "a", "r", "x"}
  {
    if tokens == [] then Blank
    else if tokens[0] == "l" then List
    else if tokens[0] == "a" then
      if |tokens| != 4 then AddUsage else Add(tokens[1], tokens[2], tokens[3])
    else if tokens[0] == "r" then
      if |tokens| == 2 then RemoveSite(tokens[1])
      else if |tokens| == 3 then Remove(tokens[1], tokens[2])
      else RemoveUsage
    else if tokens[0] == "x" then Exit
    else Invalid
  }

  /** The command an input line selects. */
  function Dispatch(line: string): (c: Command)
    ensures c == Blank <==> AllSpace(line)
    ensures c.Add? || c.RemoveSite? || c.Remove? ==> Typeable(c)
  {
    Parse(Fields(line))
  }

  /** The commands a user can type, with every argument a single word. */
  predicate Typeable(c: Command)
  {
    match c
    case Blank => true
    case List => true
    case Add(site, user, password) => IsWord(site) && IsWord(user) && IsWord(password)
    case RemoveSite(site) => IsWord(site)
    case Remove(site, user) => IsWord(site) && IsWord(user)
    case Exit => true
    case _ => false
  }

  /** The shortest input line for a typeable command. */
  function Render(c: Command): string
    requires Typeable(c)
  {
    match c
    case Blank => ""
    case List => "l"
    case Add(site, user, password) => Unwords(["a", site, user, password])
    case RemoveSite(site) => Unwords(["r", site])
    case Remove(site, user) => Unwords(["r", site, user])
    case Exit => "x"
  }

  /** Dispatch recovers every typeable command from its rendering. */
  lemma DispatchRender(c: Command)
    requires Typeable(c)
    ensures Dispatch(Render(c)) == c
  {
    match c
    case Blank =>
    case List =>
      FieldsOfUnwords(["l"]);
    case Add(site, user, password) =>
      FieldsOfUnwords(["a", site, user, password]);
    case RemoveSite(site) =>
      FieldsOfUnwords(["r", site]);
    case Remove(site, user) =>
      FieldsOfUnwords(["r", site, user]);
    case Exit =>
      FieldsOfUnwords(["x"]);
  }

  /** What loop prints: the listing of the whole vault, an operation's refusal, a usage
      line, the exit acknowledgement, or the invalid-command line. */
  datatype Message =
    | Listing(sites: Sites)
    | Refusal(status: Status)
    | AddUsageText
    | RemoveUsageText
    | Exiting
    | InvalidText

  datatype Outcome = Outcome(sites: Sites, messages: seq<Message>)

  /** What a store operation prints: nothing when it succeeds, its refusal otherwise. */
  function Printed(status: Status): seq<Message>
  {
    if status == Done then [] else [Refusal(status)]
  }

  function Reported(u: Update): Outcome
  {
    Outcome(u.sites, Printed(u.status))
  }

  /** One command other than exit, run on vault m. */
  function Execute(m: Sites, c: Command): Outcome
    requires c != Exit
  {
    match c
    case Blank => Outcome(m, [])
    case List => Outcome(m, [Listing(m)])
    case Add(site, user, password) => Reported(AddEntry(m, site, user, password))
    case AddUsage => Outcome(m, [AddUsageText])
    case RemoveSite(site) => Reported(DeleteSite(m, site))
    case Remove(site, user) => Reported(RemoveEntry(m, site, user))
    case RemoveUsage => Outcome(m, [RemoveUsageText])
    case Invalid => Outcome(m, [InvalidText])
  }

  /** Whether command c changes vault m: an add, a site removal or a user removal that
      succeeds. These are the commands after which the file is rewritten. */
  predicate Changes(m: Sites, c: Command)
  {
    match c
    case Add(site, user, password) => AddEntry(m, site, user, password).status == Done
    case RemoveSite(site) => DeleteSite(m, site).status == Done
    case Remove(site, user) => RemoveEntry(m, site, user).status == Done
    case _ => false
  }

  /** A command changes the vault exactly when it is reported as a change. */
  lemma ChangesExactly(m: Sites, c: Command)
    requires c != Exit
    ensures Changes(m, c) <==> Execute(m, c).sites != m
  {
    match c
    case Add(site, user, password) =>
      var r := AddEntry(m, site, user, password);
      if r.status == Done && site in m {
        assert |r.sites[site]| != |m[site]|;
      }
    case RemoveSite(site) =>
    case Remove(site, user) =>
      var r := RemoveEntry(m, site, user);
      if r.status == Done {
        assert |r.sites[site]| != |m[site]|;
      }
    case _ =>
  }

  /** A command read from an input line keeps a well-formed vault well formed. */
  lemma ExecuteKeepsWellFormed(m: Sites, line: string)
    requires WellFormed(m) && Dispatch(line) != Exit
    ensures WellFormed(Execute(m, Dispatch(line)).sites)
  {
    match Dispatch(line)
    case Add(site, user, password) =>
      UpdatesKeepWellFormed(m, site, user, password);
    case RemoveSite(site) =>
      UpdatesKeepWellFormed(m, site, "", "");
    case Remove(site, user) =>
      UpdatesKeepWellFormed(m, site, user, "");
    case _ =>
  }

  /** loop: the input lines run one after another until an exit command or the end of
      the input; the final vault and everything printed. */
  function Session(m: Sites, input: seq<string>): Outcome
    decreases |input|
  {
    if input == [] then Outcome(m, [])
    else
      var c := Dispatch(input[0]);
      if c == Exit then Outcome(m, [Exiting])
      else
        var step := Execute(m, c);
        var rest := Session(step.sites, input[1..]);
        Outcome(rest.sites, step.messages + rest.messages)
  }

  /** Whether some line before the first exit changes the vault, so that the session
      rewrites the file. */
  predicate Saves(m: Sites, input: seq<string>)
    decreases |input|
  {
    if input == [] then false
    else
      var c := Dispatch(input[0]);
      c != Exit && (Changes(m, c) || Saves(Execute(m, c).sites, input[1..]))
  }

  /** A session that rewrites nothing ends with the vault it started from. */
  lemma {:induction false} SessionWithoutSavesKeepsVault(m: Sites, input: seq<string>)
    requires !Saves(m, input)
    ensures Session(m, input).sites == m
    decreases |input|
  {
    if input != [] {
      var c := Dispatch(input[0]);
      if c != Exit {
        ChangesExactly(m, c);
        SessionWithoutSavesKeepsVault(m, input[1..]);
      }
    }
  }

  /** A session keeps a well-formed vault well formed: every stored field comes from
      splitting an input line. */
  lemma {:induction false} SessionKeepsWellFormed(m: Sites, input: seq<string>)
    requires WellFormed(m)
    ensures WellFormed(Session(m, input).sites)
    decreases |input|
  {
    if input != [] {
      var c := Dispatch(input[0]);
      if c != Exit {
        ExecuteKeepsWellFormed(m, input[0]);
        SessionKeepsWellFormed(Execute(m, c).sites, input[1..]);
      }
    }
  }

  /** Nothing after an exit command is run. */
  lemma {:induction false} SessionStopsAtExit(m: Sites, before: seq<string>, line: string, after: seq<string>)
    requires Dispatch(line) == Exit
    ensures Session(m, before + [line] + after) == Session(m, before + [line])
    decreases |before|
  {
    if before == [] {
      assert (before + [line] + after)[0] == line;
      assert (before + [line])[0] == line;
    } else {
      assert (before + [line] + after)[0] == before[0];
      assert (before + [line] + after)[1..] == before[1..] + [line] + after;
      assert (before + [line])[1..] == before[1..] + [line];
      var c := Dispatch(before[0]);
      if c != Exit {
        SessionStopsAtExit(Execute(m, c).sites, before[1..], line, after);
      }
    }
  }

  /** An empty or all-blank input line is silently skipped. */
  lemma {:induction false} SessionSkipsBlank(m: Sites, before: seq<string>, line: string, after: seq<string>)
    requires AllSpace(line)
    ensures Session(m, before + [line] + after) == Session(m, before + after)
    decreases |before|
  {
    if before == [] {
      assert (before + [line] + after)[0] == line;
      assert (before + [line] + after)[1..] == after;
      assert before + after == after;
    } else {
      assert (before + [line] + after)[0] == before[0];
      assert (before + after)[0] == before[0];
      assert (before + [line] + after)[1..] == before[1..] + [line] + after;
      assert (before + after)[1..] == before[1..] + after;
      var c := Dispatch(before[0]);
      if c != Exit {
        SessionSkipsBlank(Execute(m, c).sites, before[1..], line, after);
      }
    }
  }

  /** A session that starts from a vault without duplicate users ends with none. */
  lemma {:induction false} SessionKeepsUnique(m: Sites, input: seq<string>)
    requires AllUnique(m)
    ensures AllUnique(Session(m, input).sites)
    decreases |input|
  {
    if input != [] {
      var c := Dispatch(input[0]);
      if c != Exit {
        SessionKeepsUnique(Execute(m, c).sites, input[1..]);
      }
    }
  }

  /** An exit line ends the session on the spot. */
  lemma SessionExit(m: Sites, line: string, rest: seq<string>)
    requires Dispatch(line) == Exit
    ensures Session(m, [line] + rest) == Outcome(m, [Exiting])
  {
    assert ([line] + rest)[0] == line;
  }

  /** Running a line in front of the rest of the input. */
  lemma SessionCons(m: Sites, line: string, rest: seq<string>, c: Command)
    requires Dispatch(line) == c && c != Exit
    ensures Session(m, [line] + rest)
         == Outcome(Session(Execute(m, c).sites, rest).sites,
                    Execute(m, c).messages + Session(Execute(m, c).sites, rest).messages)
  {
    assert ([line] + rest)[0] == line && ([line] + rest)[1..] == rest;
  }

  /** The session from position i of the input: the line there runs first. */
  lemma SessionAt(m: Sites, input: seq<string>, i: nat)
    requires i < |input|
    ensures Dispatch(input[i]) == Exit ==> Session(m, input[i..]) == Outcome(m, [Exiting])
    ensures Saves(m, input[i..]) <==>
      Dispatch(input[i]) != Exit
      && (Changes(m, Dispatch(input[i]))
          || Saves(Execute(m, Dispatch(input[i])).sites, input[i + 1..]))
    ensures Dispatch(input[i]) != Exit ==>
      var step := Execute(m, Dispatch(input[i]));
      Session(m, input[i..])
        == Outcome(Session(step.sites, input[i + 1..]).sites,
                   step.messages + Session(step.sites, input[i + 1..]).messages)
  {
    assert input[i..][0] == input[i] && input[i..][1..] == input[i + 1..];
  }

  /** A list line prints the vault as it stands and changes nothing. */
  lemma SessionList(m: Sites, line: string, rest: seq<string>)
    requires Dispatch(line) == List
    ensures Session(m, [line] + rest)
         == Outcome(Session(m, rest).sites, [Listing(m)] + Session(m, rest).messages)
  {
    SessionCons(m, line, rest, List);
  }

  /** A command that succeeds prints nothing; the rest runs on the changed vault. */
  lemma SessionSilent(m: Sites, line: string, rest: seq<string>, c: Command, m': Sites)
    requires Dispatch(line) == c && c != Exit
    requires Execute(m, c) == Outcome(m', [])
    ensures Session(m, [line] + rest) == Session(m', rest)
  {
    SessionCons(m, line, rest, c);
    assert [] + Session(m', rest).messages == Session(m', rest).messages;
  }

  lemma ScenarioSteps(site: string, e1: Entry, e2: Entry)
    requires e1.user != e2.user
    ensures Execute(map[], Add(site, e1.user, e1.password)) == Outcome(map[site := [e1]], [])
    ensures Execute(map[site := [e1]], Add(site, e2.user, e2.password)) == Outcome(map[site := [e1, e2]], [])
    ensures Execute(map[site := [e1, e2]], Remove(site, e1.user)) == Outcome(map[site := [e2]], [])
  {
    FirstAdd(site, e1);
    SecondAdd(site, e1, e2);
    FirstRemove(site, e1, e2);
  }

  lemma FirstAdd(site: string, e1: Entry)
    ensures AddEntry(map[], site, e1.user, e1.password) == Update(Done, map[site := [e1]])
  {
    assert Get(map[], site) + [e1] == [e1];
  }

  lemma SecondAdd(site: string, e1: Entry, e2: Entry)
    requires e1.user != e2.user
    ensures AddEntry(map[site := [e1]], site, e2.user, e2.password) == Update(Done, map[site := [e1, e2]])
  {
    assert !HasUser(e2.user, [e1]);
    assert [e1] + [e2] == [e1, e2];
  }

  lemma FirstRemove(site: string, e1: Entry, e2: Entry)
    ensures RemoveEntry(map[site := [e1, e2]], site, e1.user) == Update(Done, map[site := [e2]])
  {
    assert FirstIndex(e1.user, [e1, e2]) == 0;
    assert Without([e1, e2], 0) == [e2];
  }

  /** The part of the scenario after the two additions: list, remove, list, exit. */
  lemma ScenarioTail(m2: Sites, m3: Sites, c: Command, ll: string, lr: string, lx: string)
    requires Dispatch(lr) == c && c != Exit && Execute(m2, c) == Outcome(m3, [])
    requires Dispatch(ll) == List && Dispatch(lx) == Exit
    ensures Session(m2, [ll] + ([lr] + ([ll] + [lx])))
         == Outcome(m3, [Listing(m2), Listing(m3), Exiting])
  {
    ListThenExit(m3, ll, lx);
    SessionSilent(m2, lr, [ll] + [lx], c, m3);
    SessionList(m2, ll, [lr] + ([ll] + [lx]));
    PrependOne(Listing(m2), Listing(m3), Exiting);
  }

  /** A listing followed by an exit: the vault is printed once, then the session ends. */
  lemma ListThenExit(m: Sites, ll: string, lx: string)
    requires Dispatch(ll) == List && Dispatch(lx) == Exit
    ensures Session(m, [ll] + [lx]) == Outcome(m, [Listing(m), Exiting])
  {
    SessionExit(m, lx, []);
    assert [lx] + [] == [lx];
    SessionList(m, ll, [lx]);
  }

  lemma PrependOne<T>(a: T, b: T, c: T)
    ensures [a] + [b, c] == [a, b, c]
  {
  }

  lemma ConsSix<T>(a: T, b: T, c: T, d: T, e: T, f: T)
    ensures [a] + ([b] + ([c] + ([d] + ([e] + [f])))) == [a, b, c, d, e, f]
  {
  }

  lemma ScenarioRun(site: string, e1: Entry, e2: Entry, la1: string, la2: string, ll: string, lr: string, lx: string)
    requires e1.user != e2.user
    requires Dispatch(la1) == Add(site, e1.user, e1.password)
    requires Dispatch(la2) == Add(site, e2.user, e2.password)
    requires Dispatch(lr) == Remove(site, e1.user)
    requires Dispatch(ll) == List && Dispatch(lx) == Exit
    ensures Session(map[], [la1] + ([la2] + ([ll] + ([lr] + ([ll] + [lx])))))
         == Outcome(map[site := [e2]], [Listing(map[site := [e1, e2]]), Listing(map[site := [e2]]), Exiting])
  {
    var m1, m2, m3 := map[site := [e1]], map[site := [e1, e2]], map[site := [e2]];
    var tail := [ll] + ([lr] + ([ll] + [lx]));
    ScenarioSteps(site, e1, e2);
    ScenarioTail(m2, m3, Remove(site, e1.user), ll, lr, lx);
    SessionSilent(m1, la2, tail, Add(site, e2.user, e2.password), m2);
    SessionSilent(map[], la1, [la2] + tail, Add(site, e1.user, e1.password), m1);
  }

  /** Two users added to a new site, the first removed: only the second remains, and
      the two listings show the vault before and after the removal. */
  lemma Scenario(site: string, user1: string, pw1: string, user2: string, pw2: string)
    requires IsWord(site) && IsWord(user1) && IsWord(pw1) && IsWord(user2) && IsWord(pw2)
    requires user1 != user2
    ensures var e1, e2 := Entry(user1, pw1), Entry(user2, pw2);
      Session(map[], [Render(Add(site, user1, pw1)), Render(Add(site, user2, pw2)), Render(List),
                      Render(Remove(site, user1)), Render(List), Render(Exit)])
      == Outcome(map[site := [e2]], [Listing(map[site := [e1, e2]]), Listing(map[site := [e2]]), Exiting])
  {
    var a1, a2, r1 := Add(site, user1, pw1), Add(site, user2, pw2), Remove(site, user1);
    var la1, la2, ll, lr, lx := Render(a1), Render(a2), Render(List), Render(r1), Render(Exit);
    DispatchRender(a1);
    DispatchRender(a2);
    DispatchRender(r1);
    DispatchRender(List);
    DispatchRender(Exit);
    ScenarioRun(site, Entry(user1, pw1), Entry(user2, pw2), la1, la2, ll, lr, lx);
    ConsSix(la1, la2, ll, lr, ll, lx);
  }
}
