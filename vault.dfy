/** The running program: the process-wide password map, the file it is saved to after
    every change, and the command loop that drives it. */
module Vault {
  import opened Text
  import opened Credentials
  import opened Persistence
  import opened Commands

  class Store {
    /** passwordMap: site name to its entries. */
    var sites: Sites
    /** The lines of the vault file as last written (or as found at start-up). */
    var disk: seq<string>

    /** init: start from an empty map and read the vault file into it. */
    constructor Open(file: File)
      ensures sites == (if file.Absent? then map[] else Loaded(file.lines))
      ensures disk == (if file.Absent? then [] else file.lines)
    {
      sites := map[];
      disk := if file.Absent? then [] else file.lines;
      new;
      Read(file);
    }

    /** pmRead: a missing file gives an empty vault; otherwise every line of three
        fields is appended to its site, in file order, and every other line skipped. */
    method Read(file: File)
      modifies this`sites
      ensures sites == (if file.Absent? then map[] else LoadFrom(old(sites), file.lines))
    {
      if file.Absent? {
        sites := map[];
        return;
      }
      var lines := file.lines;
      var i := 0;
      while i < |lines|
        invariant 0 <= i <= |lines|
        invariant sites == LoadFrom(old(sites), lines[..i])
      {
        var parts := Fields(lines[i]);
        if |parts| == 3 {
          var site, user, password := parts[0], parts[1], parts[2];
          sites := sites[site := Get(sites, site) + [Entry(user, password)]];
        }
        assert lines[..i + 1][..i] == lines[..i];
        i := i + 1;
      }
      assert lines[..i] == lines;
    }

    /** pmWrite: rewrite the whole file, one line per entry, site after site. The
        sites come in no fixed order, as Go's map iteration. */
    method Write()
      modifies this`disk
      ensures IsSaveOf(disk, sites)
    {
      var remaining := sites.Keys;
      var lines: seq<string> := [];
      ghost var order: seq<string> := [];
      while remaining != {}
        invariant forall s :: s in sites <==> s in order || s in remaining
        invariant forall s :: s in order ==> s !in remaining
        invariant forall i, j :: 0 <= i < j < |order| ==> order[i] != order[j]
        invariant lines == SaveLines(sites, order)
        decreases remaining
      {
        var site :| site in remaining;
        var siteLines := WriteSite(site, sites[site]);
        lines := lines + siteLines;
        assert (order + [site])[..|order|] == order;
        order := order + [site];
        remaining := remaining - {site};
      }
      disk := lines;
      assert IsKeyOrder(order, sites);
    }

    /** The lines pmWrite emits for one site: one formatted line per entry, in order. */
    static method WriteSite(site: string, entries: seq<Entry>) returns (lines: seq<string>)
      ensures lines == SiteLines(site, entries)
    {
      lines := [];
      for j := 0 to |entries|
        invariant lines == SiteLines(site, entries[..j])
      {
        assert entries[..j + 1][..j] == entries[..j];
        lines := lines + [FormatLine(site, entries[j].user, entries[j].password)];
      }
      assert entries[..|entries|] == entries;
    }

    /** findEntrySlice: the site's entries (empty when absent) and whether it exists. */
    method FindEntries(site: string) returns (entries: seq<Entry>, present: bool)
      ensures present <==> site in sites
      ensures entries == Get(sites, site)
    {
      present := site in sites;
      entries := if present then sites[site] else [];
    }

    /** setEntrySlice: store the site's list, whatever its length, then save. */
    method SetEntries(site: string, entries: seq<Entry>)
      modifies this
      ensures sites == old(sites)[site := entries]
      ensures IsSaveOf(disk, sites)
    {
      sites := sites[site := entries];
      Write();
    }

    /** pmAdd */
    method Add(site: string, user: string, password: string) returns (status: Status)
      modifies this
      ensures Update(status, sites) == AddEntry(old(sites), site, user, password)
      ensures status == Done ==> IsSaveOf(disk, sites)
      ensures status != Done ==> disk == old(disk)
    {
      var entries, present := FindEntries(site);
      if present {
        var i, found := Find(user, entries);
        if found {
          return DuplicateEntry;
        }
      }
      SetEntries(site, entries + [Entry(user, password)]);
      return Done;
    }

    /** pmRemove */
    method Remove(site: string, user: string) returns (status: Status)
      modifies this
      ensures Update(status, sites) == RemoveEntry(old(sites), site, user)
      ensures status == Done ==> IsSaveOf(disk, sites)
      ensures status != Done ==> disk == old(disk)
    {
      var entries, present := FindEntries(site);
      if !present {
        return SiteNotFound;
      }
      var i, found := Find(user, entries);
      if !found {
        return UserNotFound;
      }
      SetEntries(site, Without(entries, i));
      return Done;
    }

    /** pmRemoveSite */
    method RemoveSite(site: string) returns (status: Status)
      modifies this
      ensures Update(status, sites) == DeleteSite(old(sites), site)
      ensures status == Done ==> IsSaveOf(disk, sites)
      ensures status != Done ==> disk == old(disk)
    {
      var entries, present := FindEntries(site);
      if !present {
        return SiteNotFound;
      }
      if |entries| > 1 {
        return MultipleUsers;
      }
      sites := sites - {site};
      Write();
      return Done;
    }

    /** One command of loop other than exit: what it does to the vault and prints. */
    method Execute(command: Command) returns (messages: seq<Message>)
      requires command != Exit
      modifies this
      ensures Outcome(sites, messages) == Commands.Execute(old(sites), command)
      ensures Changes(old(sites), command) ==> IsSaveOf(disk, sites)
      ensures !Changes(old(sites), command) ==> disk == old(disk)
    {
      var status := Done;
      messages := [];
      match command {
        case Blank =>
        case List =>
          messages := [Listing(sites)];
        case Add(site, user, password) =>
          status := Add(site, user, password);
        case AddUsage =>
          messages := [AddUsageText];
        case RemoveSite(site) =>
          status := RemoveSite(site);
        case Remove(site, user) =>
          status := Remove(site, user);
        case RemoveUsage =>
          messages := [RemoveUsageText];
        case Invalid =>
          messages := [InvalidText];
      }
      messages := messages + Printed(status);
    }

    /** loop: run the input lines until an exit command or the end of the input. The
        file is rewritten after every change, so it holds the final vault unless nothing
        changed. */
    method Run(input: seq<string>) returns (messages: seq<Message>)
      modifies this
      ensures Outcome(sites, messages) == Session(old(sites), input)
      ensures Saves(old(sites), input) ==> IsSaveOf(disk, sites)
      ensures !Saves(old(sites), input) ==> sites == old(sites) && disk == old(disk)
    {
      ghost var whole := Session(sites, input);
      ghost var saves := Saves(sites, input);
      ghost var wrote := false;
      messages := [];
      var i := 0;
      while i < |input|
        invariant 0 <= i <= |input|
        invariant SessionSplit(sites, input, i, messages, whole)
        invariant saves == (wrote || Saves(sites, input[i..]))
        invariant wrote ==> IsSaveOf(disk, sites)
        invariant !wrote ==> sites == old(sites) && disk == old(disk)
      {
        var command := Dispatch(input[i]);
        if command == Exit {
          SessionEnds(sites, input, i, messages, whole);
          messages := messages + [Exiting];
          return;
        }
        SessionAdvances(sites, input, i, messages, whole);
        ghost var changed := Changes(sites, command);
        ChangesExactly(sites, command);
        var printed := Execute(command);
        messages := messages + printed;
        wrote := wrote || changed;
        i := i + 1;
      }
      SessionEnds(sites, input, i, messages, whole);
    }
  }

  /** The messages so far followed by what the rest of the input prints make up what the
      whole session prints, and the rest of the input ends on the same vault. */
  ghost predicate SessionSplit(m: Sites, input: seq<string>, i: nat, messages: seq<Message>, whole: Outcome)
    requires i <= |input|
  {
    && Session(m, input[i..]).sites == whole.sites
    && messages + Session(m, input[i..]).messages == whole.messages
  }

  /** Running the line at i keeps the split, and the rest of the input saves exactly
      when the line changes the vault or a later line saves. */
  lemma SessionAdvances(m: Sites, input: seq<string>, i: nat, messages: seq<Message>, whole: Outcome)
    requires i < |input| && Dispatch(input[i]) != Exit
    requires SessionSplit(m, input, i, messages, whole)
    ensures var step := Commands.Execute(m, Dispatch(input[i]));
      && SessionSplit(step.sites, input, i + 1, messages + step.messages, whole)
      && (Saves(m, input[i..]) <==> Changes(m, Dispatch(input[i])) || Saves(step.sites, input[i + 1..]))
  {
    var step := Commands.Execute(m, Dispatch(input[i]));
    var later := Session(step.sites, input[i + 1..]);
    SessionAt(m, input, i);
    Associative(messages, step.messages, later.messages);
  }

  /** At an exit line or at the end of the input the session is complete. */
  lemma SessionEnds(m: Sites, input: seq<string>, i: nat, messages: seq<Message>, whole: Outcome)
    requires i <= |input| && SessionSplit(m, input, i, messages, whole)
    requires i < |input| ==> Dispatch(input[i]) == Exit
    ensures i < |input| ==> whole == Outcome(m, messages + [Exiting])
    ensures i == |input| ==> whole == Outcome(m, messages)
    ensures !Saves(m, input[i..])
  {
    if i < |input| {
      SessionAt(m, input, i);
    } else {
      assert input[i..] == [];
      assert messages + [] == messages;
    }
  }

  /** init, then loop, then init again: the program started on a file and run on some
      input leaves a file from which the next start reads the final vault back, less the
      sites whose last user was removed. */
  method RunThenReopen(file: File, input: seq<string>) returns (final: Sites, reloaded: Sites)
    ensures final == Session(if file.Absent? then map[] else Loaded(file.lines), input).sites
    ensures reloaded == Kept(final)
  {
    var store := new Store.Open(file);
    ghost var start := store.sites;
    if file.Lines? {
      LoadFromKeepsWellFormed(map[], file.lines);
    }
    var messages := store.Run(input);
    final := store.sites;
    SessionKeepsWellFormed(start, input);
    var next := new Store.Open(Lines(store.disk));
    reloaded := next.sites;
    if Saves(start, input) {
      SaveThenLoad(final, store.disk);
    } else if file.Lines? {
      LoadedIsKept(file.lines);
    } else {
      assert Loaded([]) == map[];
      assert Kept(map[]) == map[];
    }
  }

  /** The end-to-end run on a missing file: two users added to one site, the first
      removed; the file then holds the one remaining entry. */
  method EndToEnd(site: string, user1: string, pw1: string, user2: string, pw2: string)
    returns (disk: seq<string>)
    requires IsWord(site) && IsWord(user1) && IsWord(pw1) && IsWord(user2) && IsWord(pw2)
    requires user1 != user2
    ensures disk == [FormatLine(site, user2, pw2)]
  {
    var store := new Store.Open(Absent);
    var input := [Render(Add(site, user1, pw1)), Render(Add(site, user2, pw2)), Render(List),
                  Render(Remove(site, user1)), Render(List), Render(Exit)];
    var messages := store.Run(input);
    Scenario(site, user1, pw1, user2, pw2);
    assert store.sites == map[site := [Entry(user2, pw2)]];
    assert site in store.sites && store.sites != map[];
    SaveOfOneSite(store.disk, site, [Entry(user2, pw2)]);
    assert [Entry(user2, pw2)][..0] == [];
    disk := store.disk;
  }
}
