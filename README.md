# Password vault in Dafny

A model of `main.go`, a single-user command-line password vault. The vault maps each
site name to an ordered list of (user, password) entries. The program:

- reads the vault from the file `passwordVault` at start-up;
- rewrites the whole file after every change;
- is driven by a line-oriented command loop: `l` lists, `a site user password` adds,
  `r site` removes a site, `r site user` removes a user, and `x` exits.

The project has five modules, one per part of the program:

- `Text` (`text.dfy`): Go's `strings.Fields` over ASCII white space, and fmt's
  right-justified `%Ns` verb (`PadLeft`). It also holds `Unwords`, which renders a
  command line.
- `Credentials` (`credentials.dfy`): the entry type, the `find` linear search, and the
  three store operations as functions of the old map, each with its status.
- `Persistence` (`persistence.dfy`): reading a file as a left fold over its lines, and
  the `%40s %20s %20s` line format of the writer. It also states what a written file
  is, and proves the read-back lemmas.
- `Commands` (`commands.dfy`): the token dispatch of `loop`, and a whole session as a
  function of the starting vault and the input lines.
- `Vault` (`vault.dfy`): the running program. Class `Store` holds the map
  (`passwordMap`) and the file's lines. Its methods update the map in place and rewrite
  the file, each proved against the functions above. The command loop is a method with
  a loop.

Behaviours of the code that the model keeps as they are:

- Removing the last user of a site stores the empty list back. `setEntrySlice`
  (main.go:44-46) never deletes a key, so the site stays in the vault with no entries
  until `r site` deletes it.
- The file is written in the padded columns of `"%40s %20s %20s"` (main.go:157). Reading
  splits on runs of white space (main.go:133), so the padding reads back the same.
- Reading a file does not check for duplicate users (main.go:136). A file can therefore
  produce a site with two entries for one user, which `pmAdd` alone never creates.
- `pmRemoveSite` deletes a site holding zero or one entries (main.go:108).
- The file is rewritten only after an add or a removal that succeeds (main.go:46,
  main.go:114). Listing, usage lines, invalid commands, blank lines and refusals leave
  it as it was.

## Model

| member | source | states |
|---|---|---|
| Text.WordLength | main.go:133 | the length of the leading run of non-space characters: everything before it is non-space, and the character at it (if any) is a space |
| Text.Fields | main.go:133 | every field is a non-empty word without white space, and a line has no fields exactly when it is all white space |
| Text.PadLeft | main.go:157 | `%Ns`: the result is `max(N, len)` long, ends with the string itself, and every character before it is a space U+0020 (never truncated) |
| Text.Spaces | main.go:157 | n characters, each a space U+0020 |
| Text.FieldsSkipSpace | main.go:133 | leading white space does not change the fields of a line |
| Text.FieldsOfWord | main.go:133 | a word followed by white space or by nothing is the first field, and the rest of the line gives the remaining fields |
| Text.FieldsOfPadded | main.go:157 | a word right-justified with `%Ns` and followed by white space reads back as that word, whatever the width |
| Text.FieldsOfUnwords | main.go:170 | splitting words joined by single spaces gives the same words back |
| Credentials.FirstIndex | main.go:50-57 | the least index whose entry has the user, or -1 exactly when no entry has it |
| Credentials.Get | main.go:38-41 | a site's list or the empty list for an absent site (Go's nil slice); specified by Vault.Store.FindEntries |
| Credentials.Find | main.go:50-57 | the loop returns (i, true) with i the least index whose entry has the user, and (-1, false) when there is none; i equals FirstIndex |
| Credentials.AddEntry | main.go:71-80 | duplicate exactly when the site exists and has the user, leaving the map unchanged; otherwise the site's list (empty if absent) gets the entry appended, the keys gain the site, other sites are unchanged, and unique users per site are preserved |
| Credentials.Without | main.go:97 | the list one shorter, with the elements before index i in place and those after it shifted down by one |
| Credentials.WithoutKeepsUnique | main.go:97 | dropping one entry keeps the remaining users distinct |
| Credentials.RemoveEntry | main.go:83-98 | site-not-found exactly when absent, user-not-found exactly when the site lacks the user (both leave the map unchanged); otherwise the same keys (an emptied site stays), the site's list is one shorter and has lost exactly the element at the first matching index with the rest in order, other sites are unchanged, and unique users are preserved |
| Credentials.DeleteSite | main.go:101-115 | site-not-found exactly when absent, multiple-users exactly when the site has more than one entry (both unchanged); otherwise the key is deleted (lists of length 0 or 1), all other sites keep their lists, and unique users are preserved |
| Credentials.WellFormed | main.go:133-136 | every site name, user and password is one non-empty field without white space, as `strings.Fields` produces; stated of the vault by the lemmas below |
| Credentials.AppendKeepsWellFormed | main.go:136 | appending an entry of words to a site named by a word keeps the vault well formed |
| Credentials.UpdatesKeepWellFormed | main.go:71-115 | an add of words, a user removal and a site removal all keep a well-formed vault well formed |
| Persistence.LoadFromGroups | main.go:130-138 | after reading lines into a map, a site is present exactly when it was before or some three-field line names it, and its list is the old one followed by the entries of its lines in file order |
| Persistence.ReadLine | main.go:133-137 | one line of the read loop: a three-field line appends its entry to its site, any other line is skipped; specified by Persistence.ReadFormattedLine and Persistence.LoadSkipsMalformed |
| Persistence.LoadFrom | main.go:130-138 | the read loop as a fold: reading never removes a site and only extends each list; LoadFromGroups states exactly what it appends |
| Persistence.LoadFromKeepsWellFormed | main.go:133-136 | reading lines into a well-formed vault keeps it well formed, since every stored field is a field of a line |
| Persistence.LoadedIsKept | main.go:131-137 | a vault read from a file has no site with an empty list |
| Persistence.LoadedEntries | main.go:118-138 | a site is read from a file exactly when the file holds entries for it, with exactly those entries |
| Persistence.LoadSkipsMalformed | main.go:133-134 | a line without exactly three fields leaves the vault as it was |
| Persistence.LoadAdmitsDuplicates | main.go:136 | two written lines for the same site and user both land in the site's list, so a loaded vault can have duplicate users |
| Persistence.FieldsOfFormatLine | main.go:157 | a written line `"%40s %20s %20s"` splits back into exactly its site, user and password when each is one word |
| Persistence.FormatLine | main.go:157 | one written line; specified by Persistence.FieldsOfFormatLine and Persistence.FormatLineColumns |
| Persistence.FormatLineColumns | main.go:157 | fields that fit their columns give an 82-character line: the site padded to 40, a space, the user padded to 20, a space, the password padded to 20 |
| Persistence.ReadFormattedLine | main.go:133-136 | reading a written line appends its entry to its site |
| Persistence.EntriesForSiteLines | main.go:156-157 | the lines written for a site hold exactly that site's entries, in order, and nothing for any other site |
| Persistence.SiteLines | main.go:156-161 | one line per entry of the site, the j-th line the formatted j-th entry |
| Persistence.SaveLines | main.go:155-162 | the lines of the sites in the given order, one site after another; specified by Persistence.EntriesForSaveLines and Vault.Store.Write |
| Persistence.EntriesForSaveLines | main.go:155-162 | a file written site by site in any order of distinct sites holds each written site's entries, and nothing for other sites |
| Persistence.SavedEntries | main.go:147-163 | a saved file holds, for every site, exactly that site's entries (none for an absent site) |
| Persistence.SaveThenLoad | main.go:118-163 | saving and reading back gives every site that has entries, with its entries in the same order; a site with an empty list writes no lines and is not read back |
| Persistence.SaveOfOneSite | main.go:155-162 | a vault with a single site is saved as exactly that site's lines |
| Commands.Parse | main.go:172-198 | no tokens is blank; `l` lists; `a` with exactly 4 tokens adds, otherwise usage; `r` with 2 tokens removes the site, with 3 the user, otherwise usage; `x` exits; any other first token is invalid (each as an if-and-only-if) |
| Commands.Dispatch | main.go:170-176 | a line selects Blank exactly when it is all white space, and an add or removal it selects has single-word arguments |
| Commands.Execute | main.go:176-198 | one non-exit command run on the vault; specified by Vault.Store.Execute, Commands.ChangesExactly and Commands.ExecuteKeepsWellFormed |
| Commands.ChangesExactly | main.go:46 | a command changes the vault exactly when it is an add or removal that succeeds (the cases in which setEntrySlice or pmRemoveSite rewrite the file) |
| Commands.ExecuteKeepsWellFormed | main.go:170-198 | a command read from an input line keeps a well-formed vault well formed |
| Commands.Session | main.go:166-204 | the whole loop on a starting vault; specified by Vault.Store.Run and the Session lemmas |
| Commands.DispatchRender | main.go:170-198 | the line rendered for a typeable command dispatches back to that command |
| Commands.SessionStopsAtExit | main.go:193-195 | nothing after an exit line runs |
| Commands.SessionSkipsBlank | main.go:172-174 | a blank line changes neither the vault nor the output |
| Commands.SessionKeepsUnique | main.go:166-204 | a session that starts from a vault without duplicate users ends without any |
| Commands.SessionKeepsWellFormed | main.go:166-204 | a session keeps a well-formed vault well formed |
| Commands.SessionWithoutSavesKeepsVault | main.go:166-204 | a session in which no line before the first exit changes the vault ends with the vault it started from |
| Commands.Scenario | main.go:166-204 | two users added to a new site, a listing, the first removed, a listing, exit: only the second user remains, and the listings show the vault before and after the removal |
| Vault.Store.Open | main.go:32-35 | start-up: an empty map into which the file is read, so a missing file gives an empty vault |
| Vault.Store.Read | main.go:118-144 | the loop leaves the map equal to the fold of the file's lines into the old map, or an empty map when the file is missing |
| Vault.Store.Write | main.go:147-163 | the file becomes the lines of every site, one site after another in some order of the keys |
| Vault.Store.WriteSite | main.go:156-161 | the loop emits one formatted line per entry of the site, in list order |
| Vault.Store.FindEntries | main.go:38-41 | returns the site's list (empty if absent) and whether the site exists |
| Vault.Store.SetEntries | main.go:44-47 | the site maps to the given list, even an empty one, and the file is rewritten from the new map |
| Vault.Store.Add | main.go:71-80 | status and new map are those of AddEntry on the old map; the file is rewritten exactly on success |
| Vault.Store.Remove | main.go:83-98 | status and new map are those of RemoveEntry on the old map; the file is rewritten exactly on success |
| Vault.Store.RemoveSite | main.go:101-115 | status and new map are those of DeleteSite on the old map; the file is rewritten exactly on success |
| Vault.Store.Execute | main.go:176-198 | one non-exit command changes the map and prints as the Execute function says; the file holds the new map when the command is a change, and is untouched otherwise |
| Vault.Store.Run | main.go:166-204 | the loop ends with the map and output of Session on the old map and the input; when some line before the first exit changes the vault the file holds the final map, and otherwise both the map and the file are untouched |
| Vault.RunThenReopen | main.go:32-35 | start on a file, run any input, start again on the file left behind: the second start reads the final vault of the session back, less its sites with empty lists |
| Vault.EndToEnd | main.go:147-163 | from a missing file, adding two users to one site and removing the first leaves a file of exactly one line, the second user's |

## Left out

- File I/O is not modelled: opening, truncating and closing `passwordVault`, and the fatal
  `os.Exit(1)` paths on I/O errors. A file is `Absent` or its sequence of lines, and the
  file the program writes is the `disk` field.
- `bufio.Scanner` line splitting and its errors are not modelled, and neither are stdin
  read errors. Input and file contents are given as sequences of lines without
  terminators.
- `pmList` and `text/tabwriter` are not modelled. A listing is a message carrying the
  whole map, not its column layout.
- Message strings are not modelled. Each printed line is a constructor of `Message`, and
  each refusal is a `Status`.
- `Vault.Store.Write` does not pin down Go's map iteration order. Its contract holds for
  some order of the keys, and the file is specified up to that order (`IsSaveOf`).
- Text.Fields: white space is the ASCII set (space, tab, newline, vertical tab, form
  feed, carriage return). Unicode white space beyond ASCII is not classified.
- Go slice aliasing is not modelled. `append(entrySlice[:i], entrySlice[i+1:]...)`
  shifts the shared backing array in place. The model works on sequence values, which
  give the same final list because the map entry is overwritten with the result.
- Go's `main` is not modelled beyond `loop`.
- An input line with a non-word field (containing white space) cannot be rendered by
  `Render`. Dispatch of arbitrary lines is still covered by `Commands.Parse` over
  `Text.Fields`.
