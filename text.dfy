/** Tokenising and padding of text, as the vault uses Go's strings.Fields and fmt's
    right-justified "%Ns" verb. Strings are sequences of characters (runes). */
module Text {

  /** The ASCII white-space characters strings.Fields splits on. */
  predicate IsSpace(c: char) {
    c == ' ' || c == '\t' || c == '\n' || c == '\U{000B}' || c == '\U{000C}' || c == '\r'
  }

  predicate AllSpace(s: string) {
    forall i :: 0 <= i < |s| ==> IsSpace(s[i])
  }

  /** A token that strings.Fields can return: non-empty, with no white space in it. */
  predicate IsWord(s: string) {
    |s| > 0 && forall i :: 0 <= i < |s| ==> !IsSpace(s[i])
  }

  /** Length of the run of non-space characters at the head of s. */
  function WordLength(s: string): (n: nat)
    ensures n <= |s|
    ensures forall i :: 0 <= i < n ==> !IsSpace(s[i])
    ensures n < |s| ==> IsSpace(s[n])
  {
    if s == [] || IsSpace(s[0]) then 0 else 1 + WordLength(s[1..])
  }

  /** strings.Fields: the maximal runs of non-space characters of s, in order. */
  function Fields(s: string): (r: seq<string>)
    ensures forall i :: 0 <= i < |r| ==> IsWord(r[i])
    ensures r == [] <==> AllSpace(s)
    decreases |s|
  {
    if s == [] then []
    else if IsSpace(s[0]) then
      var r := Fields(s[1..]);
      assert AllSpace(s) <==> AllSpace(s[1..]) by {
        if AllSpace(s[1..]) {
          forall i | 0 <= i < |s| ensures IsSpace(s[i]) {
            if i > 0 { assert s[i] == s[1..][i - 1]; }
          }
        }
      }
      r
    else
      var n := WordLength(s);
      [s[..n]] + Fields(s[n..])
  }

  function Spaces(n: nat): (r: string)
    ensures |r| == n && AllSpace(r)
    ensures forall i :: 0 <= i < n ==> r[i] == ' '
  {
    seq(n, _ => ' ')
  }

  /** fmt's "%Ns" verb: s right-justified in a field of the given width, padded on the
      left with spaces and never truncated. */
  function PadLeft(s: string, width: nat): (r: string)
    ensures |r| == if |s| < width then width else |s|
    ensures r[|r| - |s|..] == s
    ensures AllSpace(r[..|r| - |s|])
    ensures forall i :: 0 <= i < |r| - |s| ==> r[i] == ' '
  {
    if |s| < width then Spaces(width - |s|) + s else s
  }

  /** The words joined by single spaces. */
  function Unwords(ws: seq<string>): string
  {
    if |ws| == 0 then ""
    else if |ws| == 1 then ws[0]
    else ws[0] + " " + Unwords(ws[1..])
  }

  /** Leading white space does not change the fields of a line. */
  lemma {:induction false} FieldsSkipSpace(sp: string, s: string)
    requires AllSpace(sp)
    ensures Fields(sp + s) == Fields(s)
    decreases |sp|
  {
    if sp != [] {
      var t := sp + s;
      assert t[0] == sp[0] && IsSpace(t[0]);
      assert t[1..] == sp[1..] + s;
      assert Fields(t) == Fields(t[1..]);
      FieldsSkipSpace(sp[1..], s);
    } else {
      assert sp + s == s;
    }
  }

  /** A word followed by white space (or by nothing) is the first field. */
  lemma FieldsOfWord(w: string, rest: string)
    requires IsWord(w)
    requires rest == [] || IsSpace(rest[0])
    ensures Fields(w + rest) == [w] + Fields(rest)
  {
    var s := w + rest;
    WordLengthOfWord(w, rest);
    assert s[..|w|] == w && s[|w|..] == rest;
  }

  lemma {:induction false} WordLengthOfWord(w: string, rest: string)
    requires forall i :: 0 <= i < |w| ==> !IsSpace(w[i])
    requires rest == [] || IsSpace(rest[0])
    ensures WordLength(w + rest) == |w|
  {
    if w == [] {
      assert w + rest == rest;
    } else {
      assert (w + rest)[0] == w[0];
      assert (w + rest)[1..] == w[1..] + rest;
      WordLengthOfWord(w[1..], rest);
    }
  }

  /** A padded word is a field: the padding is white space. */
  lemma FieldsOfPadded(w: string, width: nat, rest: string)
    requires IsWord(w)
    requires rest == [] || IsSpace(rest[0])
    ensures Fields(PadLeft(w, width) + rest) == [w] + Fields(rest)
  {
    var sp := PaddingSplit(w, width, rest);
    FieldsSkipSpace(sp, w + rest);
    FieldsOfWord(w, rest);
  }

  lemma PaddingSplit(w: string, width: nat, rest: string) returns (sp: string)
    ensures AllSpace(sp) && PadLeft(w, width) + rest == sp + (w + rest)
  {
    sp := Spaces(if |w| < width then width - |w| else 0);
    assert PadLeft(w, width) == sp + w;
  }

  /** Splitting words joined by single spaces gives the words back. */
  lemma {:induction false} FieldsOfUnwords(ws: seq<string>)
    requires forall i :: 0 <= i < |ws| ==> IsWord(ws[i])
    ensures Fields(Unwords(ws)) == ws
  {
    if |ws| == 1 {
      assert ws[0] + "" == ws[0];
      FieldsOfWord(ws[0], "");
    } else if |ws| > 1 {
      var tail := Unwords(ws[1..]);
      Associative(ws[0], " ", tail);
      FieldsOfWord(ws[0], " " + tail);
      FieldsSkipSpace(" ", tail);
      FieldsOfUnwords(ws[1..]);
      HeadTail(ws);
    }
  }

  lemma Associative<T>(a: seq<T>, b: seq<T>, c: seq<T>)
    ensures (a + b) + c == a + (b + c)
  {
  }

  lemma HeadTail<T>(s: seq<T>)
    requires s != []
    ensures [s[0]] + s[1..] == s
  {
  }
}
