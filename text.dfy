/** The Python string operations the cleaning relies on, for ASCII text:
    `str.isspace`, `str.strip()`, `str.split()`, `' '.join(...)` and
    `str.capitalize()`. Characters outside ASCII are treated as neither
    whitespace nor cased letters. */
module PyText {

  /** `str.isspace` on ASCII: tab, line feed, vertical tab, form feed, carriage
      return, the separators 0x1C to 0x1F, and space. */
  predicate IsSpace(ch: char) {
    ch == ' ' || ('\t' <= ch <= '\r') || ('\U{1C}' <= ch <= '\U{1F}')
  }

  predicate IsUpper(ch: char) { 'A' <= ch <= 'Z' }

  predicate IsLower(ch: char) { 'a' <= ch <= 'z' }

  /** `str.upper` on one character: a lower-case letter becomes the upper-case
      letter at the same place in the alphabet, which lower-cases back to it;
      anything else is left alone. */
  function ToUpper(ch: char): (u: char)
    ensures !IsLower(u)
    ensures IsSpace(u) == IsSpace(ch)
    ensures !IsLower(ch) ==> u == ch
    ensures IsLower(ch) ==> IsUpper(u) && u as int - 'A' as int == ch as int - 'a' as int
    ensures IsLower(ch) ==> ToLower(u) == ch
  {
    if IsLower(ch) then (ch as int - 32) as char else ch
  }

  /** `str.lower` on one character, the mirror of `ToUpper`. */
  function ToLower(ch: char): (l: char)
    ensures !IsUpper(l)
    ensures IsSpace(l) == IsSpace(ch)
    ensures !IsUpper(ch) ==> l == ch
    ensures IsUpper(ch) ==> IsLower(l) && l as int - 'a' as int == ch as int - 'A' as int
  {
    if IsUpper(ch) then (ch as int + 32) as char else ch
  }

  /** Leading whitespace removed: what remains is a suffix of `s`, everything
      cut off is whitespace, and what remains does not start with whitespace. */
  function StripLeft(s: string): (r: string)
    ensures |r| <= |s| && r == s[|s| - |r|..]
    ensures forall i :: 0 <= i < |s| - |r| ==> IsSpace(s[i])
    ensures |r| > 0 ==> !IsSpace(r[0])
  {
    if |s| > 0 && IsSpace(s[0]) then StripLeft(s[1..]) else s
  }

  /** Trailing whitespace removed, symmetrically. */
  function StripRight(s: string): (r: string)
    ensures |r| <= |s| && r == s[..|r|]
    ensures forall i :: |r| <= i < |s| ==> IsSpace(s[i])
    ensures |r| > 0 ==> !IsSpace(r[|r| - 1])
  {
    if |s| > 0 && IsSpace(s[|s| - 1]) then StripRight(s[..|s| - 1]) else s
  }

  /** `str.strip()`. The result is empty exactly when `s` is all whitespace,
      and otherwise neither starts nor ends with whitespace. */
  function Strip(s: string): (r: string)
    ensures r == "" <==> forall i :: 0 <= i < |s| ==> IsSpace(s[i])
    ensures r != "" ==> !IsSpace(r[0]) && !IsSpace(r[|r| - 1])
  {
    StripFacts(s);
    StripRight(StripLeft(s))
  }

  lemma StripFacts(s: string)
    ensures var r := StripRight(StripLeft(s));
      && (r == "" <==> forall i :: 0 <= i < |s| ==> IsSpace(s[i]))
      && (r != "" ==> !IsSpace(r[0]))
  {
    var left := StripLeft(s);
    var r := StripRight(left);
    if r != "" {
      assert r[0] == left[0];
    }
    if left != "" {
      assert left[0] == s[|s| - |left|];
    }
  }

  /** A word `str.split()` can return: non-empty, without whitespace. */
  predicate IsWord(w: string) {
    |w| > 0 && forall i :: 0 <= i < |w| ==> !IsSpace(w[i])
  }

  /** The length of the longest prefix of `s` holding no whitespace. */
  function WordEnd(s: string): (n: nat)
    ensures n <= |s|
    ensures forall i :: 0 <= i < n ==> !IsSpace(s[i])
    ensures n < |s| ==> IsSpace(s[n])
  {
    if |s| == 0 || IsSpace(s[0]) then 0 else 1 + WordEnd(s[1..])
  }

  /** `str.split()` with no separator: the maximal runs of non-whitespace,
      in order; leading, trailing and repeated whitespace yield no empty word. */
  function Split(s: string): (ws: seq<string>)
    ensures forall i :: 0 <= i < |ws| ==> IsWord(ws[i])
    decreases |s|
  {
    if |s| == 0 then []
    else if IsSpace(s[0]) then Split(s[1..])
    else
      var n := WordEnd(s);
      [s[..n]] + Split(s[n..])
  }

  /** Whitespace in front is skipped. */
  lemma SplitSpace(c: char, rest: string)
    requires IsSpace(c)
    ensures Split([c] + rest) == Split(rest)
  {
    assert ([c] + rest)[1..] == rest;
  }

  /** A word in front, followed by whitespace or nothing, is the first word. */
  lemma SplitWord(w: string, rest: string)
    requires IsWord(w) && (rest == "" || IsSpace(rest[0]))
    ensures Split(w + rest) == [w] + Split(rest)
  {
    WordEndOfWord(w, rest);
    assert (w + rest)[..|w|] == w;
    assert (w + rest)[|w|..] == rest;
  }

  /** `' '.join(ws)`. */
  function Join(ws: seq<string>): string {
    if |ws| == 0 then ""
    else if |ws| == 1 then ws[0]
    else ws[0] + " " + Join(ws[1..])
  }

  /** `str.capitalize()`: the first character upper-cased, the rest lower-cased. */
  function Capitalize(w: string): (c: string)
    ensures |c| == |w|
    ensures IsWord(w) ==> IsWord(c)
    ensures forall i :: 0 <= i < |w| ==> ToLower(c[i]) == ToLower(w[i])
  {
    if |w| == 0 then "" else [ToUpper(w[0])] + LowerAll(w[1..])
  }

  function LowerAll(s: string): (l: string)
    ensures |l| == |s|
    ensures forall i :: 0 <= i < |s| ==> l[i] == ToLower(s[i])
  {
    if |s| == 0 then "" else [ToLower(s[0])] + LowerAll(s[1..])
  }

  /** A word as `capitalize` leaves it: no lower-case first letter and no
      upper-case letter after it. */
  predicate IsCapitalized(w: string) {
    (|w| > 0 ==> !IsLower(w[0])) && forall i :: 1 <= i < |w| ==> !IsUpper(w[i])
  }

  /** Text as `' '.join` of words leaves it: no leading or trailing space, no
      two spaces in a row, and no whitespace but the single space. */
  predicate IsWellSpaced(t: string) {
    && (forall i :: 0 <= i < |t| && IsSpace(t[i]) ==> t[i] == ' ')
    && (|t| > 0 ==> t[0] != ' ' && t[|t| - 1] != ' ')
    && (forall i :: 0 <= i < |t| - 1 ==> !(t[i] == ' ' && t[i + 1] == ' '))
  }

  lemma CapitalizeIsCapitalized(w: string)
    ensures IsCapitalized(Capitalize(w))
  {
  }

  /** Capitalising twice is capitalising once. */
  lemma {:induction false} CapitalizeIdempotent(w: string)
    ensures Capitalize(Capitalize(w)) == Capitalize(w)
  {
    if |w| > 0 {
      var c := Capitalize(w);
      assert c[1..] == LowerAll(w[1..]);
      LowerAllIdempotent(w[1..]);
    }
  }

  lemma LowerAllIdempotent(s: string)
    ensures LowerAll(LowerAll(s)) == LowerAll(s)
  {
  }

  /** A word followed by whitespace (or nothing) ends where the word ends. */
  lemma {:induction false} WordEndOfWord(w: string, rest: string)
    requires IsWord(w)
    requires |rest| == 0 || IsSpace(rest[0])
    ensures WordEnd(w + rest) == |w|
  {
    if |w| > 1 {
      assert (w + rest)[1..] == w[1..] + rest;
      WordEndOfWord(w[1..], rest);
    } else {
      assert (w + rest)[1..] == rest;
    }
  }

  /** Splitting the join of words gives the words back. */
  lemma {:induction false} SplitJoin(ws: seq<string>)
    requires forall i :: 0 <= i < |ws| ==> IsWord(ws[i])
    ensures Split(Join(ws)) == ws
  {
    if |ws| == 1 {
      var w := ws[0];
      WordEndOfWord(w, "");
      assert w + "" == w;
      assert w[|w|..] == "";
    } else if |ws| > 1 {
      var w := ws[0];
      var tail := " " + Join(ws[1..]);
      var s := w + tail;
      assert Join(ws) == s;
      WordEndOfWord(w, tail);
      assert s[..|w|] == w;
      assert s[|w|..] == tail;
      assert tail[1..] == Join(ws[1..]);
      SplitJoin(ws[1..]);
    }
  }

  /** Joining words gives well-spaced text that starts and ends with a word
      character. */
  lemma {:induction false} JoinWellSpaced(ws: seq<string>)
    requires forall i :: 0 <= i < |ws| ==> IsWord(ws[i])
    ensures IsWellSpaced(Join(ws))
    ensures |ws| > 0 ==> |Join(ws)| > 0 && !IsSpace(Join(ws)[0]) && !IsSpace(Join(ws)[|Join(ws)| - 1])
  {
    if |ws| > 1 {
      JoinWellSpaced(ws[1..]);
      var w := ws[0];
      var j := Join(ws[1..]);
      var t := w + " " + j;
      assert Join(ws) == t;
      assert t[0] == w[0];
      assert t[|t| - 1] == j[|j| - 1];
      forall i | 0 <= i < |t| && IsSpace(t[i]) ensures t[i] == ' ' {
        if i > |w| { assert t[i] == j[i - |w| - 1]; }
      }
      forall i | 0 <= i < |t| - 1 ensures !(t[i] == ' ' && t[i + 1] == ' ') {
        if i < |w| - 1 { assert t[i] == w[i]; }
        else if i == |w| - 1 { assert t[i] == w[i]; }
        else if i == |w| { assert t[i + 1] == j[0]; }
        else { assert t[i] == j[i - |w| - 1] && t[i + 1] == j[i - |w|]; }
      }
    }
  }
}
