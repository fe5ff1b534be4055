/** The vault file: reading it line by line (pmRead) and the lines written for it (pmWrite).
    A file is a sequence of lines without their terminators. */
module Persistence {
  import opened Text
  import opened Credentials

  /** The vault file as pmRead finds it: missing, or its lines. */
  datatype File = Absent | Lines(lines: seq<string>)

  /** The contribution of one line to the vault being read: a line of exactly three
      fields appends (user, password) to the site's list; any other line is skipped. */
  function ReadLine(m: Sites, line: string): Sites
  {
    var f := Fields(line);
    if |f| == 3 then m[f[0] := Get(m, f[0]) + [Entry(f[1], f[2])]] else m
  }

  /** The vault after reading lines, in file order, into m. */
  function LoadFrom(m: Sites, lines: seq<string>): (r: Sites)
    ensures forall site :: site in m ==> site in r && m[site] <= r[site]
  {
    if lines == [] then m
    else ReadLine(LoadFrom(m, lines[..|lines| - 1]), lines[|lines| - 1])
  }

  /** The vault read from a file into an empty map. */
  function Loaded(lines: seq<string>): Sites
  {
    LoadFrom(map[], lines)
  }

  /** Reference definition of what the file holds for one site: the entries of its
      three-field lines, in file order. */
  function EntriesFor(site: string, lines: seq<string>): seq<Entry>
  {
    if lines == [] then []
    else
      var f := Fields(lines[|lines| - 1]);
      EntriesFor(site, lines[..|lines| - 1])
        + (if |f| == 3 && f[0] == site then [Entry(f[1], f[2])] else [])
  }

  /** After reading lines into m, a site is present when it was before or the lines name
      it, and its list is its old list followed by the entries the lines hold for it. */
  ghost predicate Grouped(m: Sites, lines: seq<string>, site: string)
  {
    && (site in LoadFrom(m, lines) <==> site in m || EntriesFor(site, lines) != [])
    && (site in LoadFrom(m, lines) ==>
          LoadFrom(m, lines)[site] == Get(m, site) + EntriesFor(site, lines))
  }

  /** Reading a file appends to each site exactly the entries the file holds for it,
      in file order; a site appears when it was present or the file names it. */
  lemma {:induction false} LoadFromGroups(m: Sites, lines: seq<string>)
    ensures forall site :: Grouped(m, lines, site)
  {
    if lines != [] {
      LoadFromGroups(m, lines[..|lines| - 1]);
      forall site ensures Grouped(m, lines, site) {
        GroupedLastLine(m, lines, site);
      }
    }
  }

  lemma GroupedLastLine(m: Sites, lines: seq<string>, site: string)
    requires lines != []
    requires Grouped(m, lines[..|lines| - 1], site)
    ensures Grouped(m, lines, site)
  {
    var init := lines[..|lines| - 1];
    var f := Fields(lines[|lines| - 1]);
    if |f| == 3 && f[0] == site {
      assert Get(m, site) + EntriesFor(site, lines)
          == (Get(m, site) + EntriesFor(site, init)) + [Entry(f[1], f[2])];
    } else {
      assert EntriesFor(site, lines) == EntriesFor(site, init) + [];
    }
  }

  /** A line without exactly three fields leaves the vault as it was. */
  lemma LoadSkipsMalformed(m: Sites, lines: seq<string>, line: string)
    requires |Fields(line)| != 3
    ensures LoadFrom(m, lines + [line]) == LoadFrom(m, lines)
  {
    assert (lines + [line])[..|lines|] == lines;
  }

  /** Reading does not check for duplicates: two lines for the same site and user both
      land in the site's list, so a vault read from a file need not satisfy AllUnique. */
  lemma LoadAdmitsDuplicates(site: string, user: string, first: string, second: string)
    requires IsWord(site) && IsWord(user) && IsWord(first) && IsWord(second)
    ensures var m := Loaded([FormatLine(site, user, first), FormatLine(site, user, second)]);
      site in m && m[site] == [Entry(user, first), Entry(user, second)] && !AllUnique(m)
  {
    FieldsOfFormatLine(site, user, first);
    FieldsOfFormatLine(site, user, second);
    LoadSameUserTwice(FormatLine(site, user, first), FormatLine(site, user, second),
                      site, user, first, second);
  }

  lemma LoadSameUserTwice(a: string, b: string, site: string, user: string, first: string, second: string)
    requires Fields(a) == [site, user, first] && Fields(b) == [site, user, second]
    ensures var m := Loaded([a, b]);
      site in m && m[site] == [Entry(user, first), Entry(user, second)] && !AllUnique(m)
  {
    var e1, e2 := Entry(user, first), Entry(user, second);
    LoadTwoLines(a, b);
    var m1: Sites := ReadLine(map[], a);
    assert Get(map[], site) + [e1] == [e1];
    var m: Sites := ReadLine(m1, b);
    assert Get(m1, site) + [e2] == [e1, e2];
    assert m[site][0].user == m[site][1].user;
  }

  /** Reading two lines reads the first, then the second. */
  lemma LoadTwoLines(a: string, b: string)
    ensures Loaded([a, b]) == ReadLine(ReadLine(map[], a), b)
  {
    assert [a, b][..1] == [a] && [a][..0] == [];
    assert [a, b][1] == b && [a][0] == a;
    assert LoadFrom(map[], [a]) == ReadLine(LoadFrom(map[], []), a);
  }

  /** pmWrite's line format "%40s %20s %20s" (the newline ends the line). */
  function FormatLine(site: string, user: string, password: string): string
  {
    PadLeft(site, 40) + (" " + (PadLeft(user, 20) + (" " + PadLeft(password, 20))))
  }

  /** Fields that fit their columns give a line of 82 characters: the site padded to 40
      columns, a space, the user padded to 20, a space, the password padded to 20. */
  lemma FormatLineColumns(site: string, user: string, password: string)
    requires |site| <= 40 && |user| <= 20 && |password| <= 20
    ensures var r := FormatLine(site, user, password);
      && |r| == 82 && r[40] == ' ' && r[61] == ' '
      && r[..40] == PadLeft(site, 40) && r[41..61] == PadLeft(user, 20) && r[62..] == PadLeft(password, 20)
  {
    Columns(PadLeft(site, 40), PadLeft(user, 20), PadLeft(password, 20), ' ');
  }

  lemma Columns<T>(a: seq<T>, b: seq<T>, c: seq<T>, sp: T)
    requires |a| == 40 && |b| == 20 && |c| == 20
    ensures var r := a + ([sp] + (b + ([sp] + c)));
      && |r| == 82 && r[40] == sp && r[61] == sp && r[..40] == a && r[41..61] == b && r[62..] == c
  {
  }

  /** A written line reads back as its three fields when each is a single word. */
  lemma FieldsOfFormatLine(site: string, user: string, password: string)
    requires IsWord(site) && IsWord(user) && IsWord(password)
    ensures Fields(FormatLine(site, user, password)) == [site, user, password]
  {
    var mid := PadLeft(user, 20) + (" " + PadLeft(password, 20));
    FieldsOfTwoPadded(user, password);
    FieldsSkipSpace(" ", mid);
    FieldsOfPadded(site, 40, " " + mid);
  }

  lemma FieldsOfTwoPadded(user: string, password: string)
    requires IsWord(user) && IsWord(password)
    ensures Fields(PadLeft(user, 20) + (" " + PadLeft(password, 20))) == [user, password]
  {
    var pp := PadLeft(password, 20);
    FieldsOfPadded(password, 20, "");
    assert pp + "" == pp;
    FieldsSkipSpace(" ", pp);
    FieldsOfPadded(user, 20, " " + pp);
  }

  /** A written line appends its entry to its site. */
  lemma ReadFormattedLine(m: Sites, site: string, user: string, password: string)
    requires IsWord(site) && IsWord(user) && IsWord(password)
    ensures ReadLine(m, FormatLine(site, user, password))
         == m[site := Get(m, site) + [Entry(user, password)]]
  {
    FieldsOfFormatLine(site, user, password);
  }

  /** The lines written for one site, one per entry, in list order. */
  function SiteLines(site: string, entries: seq<Entry>): (r: seq<string>)
    ensures |r| == |entries|
    ensures forall j :: 0 <= j < |r| ==> r[j] == FormatLine(site, entries[j].user, entries[j].password)
  {
    if entries == [] then []
    else
      var e := entries[|entries| - 1];
      SiteLines(site, entries[..|entries| - 1]) + [FormatLine(site, e.user, e.password)]
  }

  /** The lines written for the sites in the given order. */
  function SaveLines(m: Sites, order: seq<string>): seq<string>
    requires forall site :: site in order ==> site in m
  {
    if order == [] then []
    else
      var last := order[|order| - 1];
      SaveLines(m, order[..|order| - 1]) + SiteLines(last, m[last])
  }

  /** order lists every site of m exactly once. */
  ghost predicate IsKeyOrder(order: seq<string>, m: Sites)
  {
    && (forall i, j :: 0 <= i < j < |order| ==> order[i] != order[j])
    && (forall site :: site in m <==> site in order)
  }

  /** lines are what pmWrite emits for m: every site's lines, one site after another,
      the sites in some order (Go leaves the map's iteration order unspecified). */
  ghost predicate IsSaveOf(lines: seq<string>, m: Sites)
  {
    exists order :: IsKeyOrder(order, m) && lines == SaveLines(m, order)
  }

  lemma {:induction false} EntriesForAppend(site: string, a: seq<string>, b: seq<string>)
    ensures EntriesFor(site, a + b) == EntriesFor(site, a) + EntriesFor(site, b)
    decreases |b|
  {
    if b == [] {
      assert a + b == a;
    } else {
      var b' := b[..|b| - 1];
      assert (a + b)[..|a + b| - 1] == a + b';
      assert (a + b)[|a + b| - 1] == b[|b| - 1];
      EntriesForAppend(site, a, b');
    }
  }

  /** The lines written for a site hold exactly that site's entries. */
  lemma {:induction false} EntriesForSiteLines(site: string, written: string, entries: seq<Entry>)
    requires IsWord(written)
    requires forall i :: 0 <= i < |entries| ==> IsWord(entries[i].user) && IsWord(entries[i].password)
    ensures EntriesFor(site, SiteLines(written, entries)) == if site == written then entries else []
    decreases |entries|
  {
    if entries != [] {
      var n := |entries| - 1;
      var e := entries[n];
      assert entries == entries[..n] + [e];
      var init := SiteLines(written, entries[..n]);
      var line := FormatLine(written, e.user, e.password);
      assert SiteLines(written, entries) == init + [line];
      EntriesForAppend(site, init, [line]);
      EntriesForWrittenLine(site, written, e);
      EntriesForSiteLines(site, written, entries[..n]);
    }
  }

  /** The one line written for an entry holds that entry for its site only. */
  lemma EntriesForWrittenLine(site: string, written: string, e: Entry)
    requires IsWord(written) && IsWord(e.user) && IsWord(e.password)
    ensures EntriesFor(site, [FormatLine(written, e.user, e.password)])
         == if site == written then [e] else []
  {
    FieldsOfFormatLine(written, e.user, e.password);
    EntriesForOneLine(site, FormatLine(written, e.user, e.password), written, e);
  }

  lemma EntriesForOneLine(site: string, line: string, written: string, e: Entry)
    requires Fields(line) == [written, e.user, e.password]
    ensures EntriesFor(site, [line]) == if site == written then [e] else []
  {
    assert [line][..0] == [] && [line][0] == line;
  }

  lemma {:induction false} EntriesForSaveLines(site: string, m: Sites, order: seq<string>)
    requires WellFormed(m)
    requires forall s :: s in order ==> s in m
    requires forall i, j :: 0 <= i < j < |order| ==> order[i] != order[j]
    ensures EntriesFor(site, SaveLines(m, order)) == if site in order then m[site] else []
    decreases |order|
  {
    if order != [] {
      var init, last := order[..|order| - 1], order[|order| - 1];
      EntriesForAppend(site, SaveLines(m, init), SiteLines(last, m[last]));
      EntriesForSaveLines(site, m, init);
      EntriesForSiteLines(site, last, m[last]);
      InitAndLast(order, site);
    }
  }

  /** A name is in a list exactly when it is in the list's front part or is its last
      element, and never both when the names are distinct. */
  lemma InitAndLast(order: seq<string>, site: string)
    requires order != []
    requires forall i, j :: 0 <= i < j < |order| ==> order[i] != order[j]
    ensures site in order <==> site in order[..|order| - 1] || site == order[|order| - 1]
    ensures site == order[|order| - 1] ==> site !in order[..|order| - 1]
  {
    var init := order[..|order| - 1];
    assert order == init + [order[|order| - 1]];
    if site in init {
      var k :| 0 <= k < |init| && init[k] == site;
      assert order[k] == site;
    }
  }

  /** The sites of m that have entries, with their lists. */
  function Kept(m: Sites): Sites
  {
    map site | site in m && m[site] != [] :: m[site]
  }

  /** Saving then reading back gives every non-empty site with its entries in the same
      order; a site with no entries writes no lines and so is not read back. */
  lemma SaveThenLoad(m: Sites, lines: seq<string>)
    requires WellFormed(m)
    requires IsSaveOf(lines, m)
    ensures Loaded(lines) == Kept(m)
  {
    var loaded := Loaded(lines);
    var kept := Kept(m);
    forall site
      ensures site in loaded <==> site in kept
      ensures site in loaded ==> loaded[site] == kept[site]
    {
      SavedEntries(m, lines, site);
      LoadedEntries(lines, site);
    }
    assert loaded.Keys == kept.Keys;
  }

  /** A saved file holds, for every site, exactly that site's entries. */
  lemma SavedEntries(m: Sites, lines: seq<string>, site: string)
    requires WellFormed(m) && IsSaveOf(lines, m)
    ensures EntriesFor(site, lines) == Get(m, site)
  {
    var order :| IsKeyOrder(order, m) && lines == SaveLines(m, order);
    EntriesForSaveLines(site, m, order);
  }

  /** A site is read from a file exactly when the file holds entries for it, and it is
      read with those entries. */
  lemma LoadedEntries(lines: seq<string>, site: string)
    ensures site in Loaded(lines) <==> EntriesFor(site, lines) != []
    ensures site in Loaded(lines) ==> Loaded(lines)[site] == EntriesFor(site, lines)
  {
    LoadFromGroups(map[], lines);
    assert Grouped(map[], lines, site);
    assert Get(map[], site) == [];
  }

  /** A vault with a single site is saved as exactly that site's lines. */
  lemma SaveOfOneSite(lines: seq<string>, site: string, entries: seq<Entry>)
    requires IsSaveOf(lines, map[site := entries])
    ensures lines == SiteLines(site, entries)
  {
    var m := map[site := entries];
    var order :| IsKeyOrder(order, m) && lines == SaveLines(m, order);
    OnlyKey(order, m, site);
    assert order[..0] == [];
    assert SaveLines(m, order) == SaveLines(m, []) + SiteLines(site, entries);
    assert [] + SiteLines(site, entries) == SiteLines(site, entries);
  }

  lemma OnlyKey(order: seq<string>, m: Sites, site: string)
    requires IsKeyOrder(order, m) && m.Keys == {site}
    ensures order == [site]
  {
    assert site in order;
    FirstTwo(order);
    assert |order| <= 1;
  }

  lemma FirstTwo(s: seq<string>)
    ensures |s| >= 2 ==> s[0] in s && s[1] in s
  {
  }

  /** A vault read from a file has no site with an empty list. */
  lemma LoadedIsKept(lines: seq<string>)
    ensures Kept(Loaded(lines)) == Loaded(lines)
  {
    var loaded := Loaded(lines);
    forall site | site in loaded ensures loaded[site] != [] {
      LoadedEntries(lines, site);
    }
    assert Kept(loaded).Keys == loaded.Keys;
  }

  /** Reading lines into a well-formed vault keeps it well formed: every stored site,
      user and password is a field of some line. */
  lemma {:induction false} LoadFromKeepsWellFormed(m: Sites, lines: seq<string>)
    requires WellFormed(m)
    ensures WellFormed(LoadFrom(m, lines))
  {
    if lines != [] {
      var init := LoadFrom(m, lines[..|lines| - 1]);
      LoadFromKeepsWellFormed(m, lines[..|lines| - 1]);
      var f := Fields(lines[|lines| - 1]);
      if |f| == 3 {
        AppendKeepsWellFormed(init, f[0], Entry(f[1], f[2]));
      }
    }
  }
}
