/** `standardize_name`: a dish name is split on whitespace, every word is
    passed through `str.capitalize`, and the words are joined with one space.
    A missing name stays missing. */
module Names {
  import opened Frames
  import opened Records
  import opened PyText

  /** `word.capitalize() for word in words`. */
  function CapitalizeWords(ws: seq<string>): (cs: seq<string>)
    ensures |cs| == |ws|
    ensures forall i :: 0 <= i < |ws| ==> cs[i] == Capitalize(ws[i])
  {
    seq(|ws|, i requires 0 <= i < |ws| => Capitalize(ws[i]))
  }

  /** Capitalising keeps words words, and leaves each one capitalised. */
  lemma CapitalizeWordsFacts(ws: seq<string>)
    requires forall i :: 0 <= i < |ws| ==> IsWord(ws[i])
    ensures forall i :: 0 <= i < |ws| ==> IsWord(CapitalizeWords(ws)[i]) && IsCapitalized(CapitalizeWords(ws)[i])
  {
    forall i | 0 <= i < |ws|
      ensures IsWord(CapitalizeWords(ws)[i]) && IsCapitalized(CapitalizeWords(ws)[i])
    {
      CapitalizeIsCapitalized(ws[i]);
    }
  }

  /** `standardize_name(name)`. A missing name stays missing; a present one
      becomes well-spaced text (no leading, trailing or doubled space, no
      whitespace but the space) whose words are the words of the input, in
      order, each capitalised. */
  function StandardizeName(c: Cell): (r: Cell)
    ensures r.None? <==> c.None?
    ensures r.Some? ==> IsWellSpaced(r.value)
    ensures r.Some? ==> Split(r.value) == CapitalizeWords(Split(c.value))
    ensures r.Some? ==> forall i :: 0 <= i < |Split(r.value)| ==> IsCapitalized(Split(r.value)[i])
  {
    match c
    case None => None
    case Some(s) =>
      var ws := CapitalizeWords(Split(s));
      CapitalizeWordsFacts(Split(s));
      JoinWellSpaced(ws);
      SplitJoin(ws);
      Some(Join(ws))
  }

  /** Standardising a standardised name changes nothing. */
  lemma StandardizeNameIdempotent(c: Cell)
    ensures StandardizeName(StandardizeName(c)) == StandardizeName(c)
  {
    if c.Some? {
      var ws := CapitalizeWords(Split(c.value));
      var once := StandardizeName(c).value;
      assert Split(once) == ws;
      assert CapitalizeWords(ws) == ws by {
        forall i | 0 <= i < |ws| ensures Capitalize(ws[i]) == ws[i] {
          CapitalizeIdempotent(Split(c.value)[i]);
        }
      }
      assert Join(CapitalizeWords(Split(once))) == once;
    }
  }

  /** Surrounding and repeated whitespace goes, and every word is capitalised. */
  lemma StandardizeTwoWords(w1: string, w2: string)
    requires IsWord(w1) && IsWord(w2)
    ensures StandardizeName(Some(" " + w1 + "  " + w2 + "\t")) == Some(Capitalize(w1) + " " + Capitalize(w2))
  {
    SplitTwo(w1, w2);
    var cs := CapitalizeWords([w1, w2]);
    assert Join(cs) == cs[0] + " " + Join(cs[1..]);
  }

  /** `capitalize` upper-cases the first letter and lower-cases all the others. */
  lemma CapitalizeLower(w: string, c: string)
    requires w == "pizza" && c == "Pizza"
    ensures Capitalize(w) == c
  {
    assert w[0] == 'p';
    assert w[1..] == "izza";
  }

  lemma CapitalizeUpper(w: string, c: string)
    requires w == "MARGHERITA" && c == "Margherita"
    ensures Capitalize(w) == c
  {
    var u, l := w[1..], c[1..];
    assert forall i :: 0 <= i < |u| ==> ToLower(u[i]) == l[i];
  }

  /** Text holding no word standardises to the empty name, not to a missing one. */
  lemma StandardizeBlankName()
    ensures StandardizeName(Some("")) == Some("")
    ensures StandardizeName(Some(" \t ")) == Some("")
  {
    SplitSpace(' ', "\t ");
    SplitSpace('\t', " ");
    SplitSpace(' ', "");
  }

  lemma SplitTwo(w1: string, w2: string)
    requires IsWord(w1) && IsWord(w2)
    ensures Split(" " + w1 + "  " + w2 + "\t") == [w1, w2]
  {
    var after := "  " + w2 + "\t";
    var s := " " + w1 + after;
    assert s == " " + w1 + "  " + w2 + "\t";
    SplitPaddedWord(w2);
    assert after[0] == ' ';
    SplitWord(w1, after);
    assert s == [' '] + (w1 + after);
    SplitSpace(' ', w1 + after);
  }

  lemma SplitPaddedWord(w: string)
    requires IsWord(w)
    ensures Split("  " + w + "\t") == [w]
  {
    var tail := "\t";
    var mid := " " + w + tail;
    var after := " " + mid;
    assert after == "  " + w + "\t";
    SplitSpace('\t', "");
    assert tail == ['\t'] + "";
    SplitWord(w, tail);
    assert mid == [' '] + (w + tail);
    SplitSpace(' ', w + tail);
    assert after == [' '] + mid;
    SplitSpace(' ', mid);
  }

  /** `dish_df['name'] = dish_df['name'].apply(standardize_name)`. */
  function StandardizeDishes(d: seq<Dish>): (r: seq<Dish>)
    ensures |r| == |d|
    ensures forall i :: 0 <= i < |d| ==> r[i].id == d[i].id && r[i].name == StandardizeName(d[i].name)
  {
    seq(|d|, i requires 0 <= i < |d| => Dish(d[i].id, StandardizeName(d[i].name)))
  }

  /** Standardising the dish table twice is standardising it once. */
  lemma StandardizeDishesIdempotent(d: seq<Dish>)
    ensures StandardizeDishes(StandardizeDishes(d)) == StandardizeDishes(d)
  {
    forall i | 0 <= i < |d| ensures StandardizeName(StandardizeName(d[i].name)) == StandardizeName(d[i].name) {
      StandardizeNameIdempotent(d[i].name);
    }
  }
}
