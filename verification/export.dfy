/** The name of the downloaded CSV file, "<grouping>_loomulik_iive_<year>.csv"
    with the grouping label in lower case, and its reading back. */
module Export {
  import opened Wrappers
  import opened Decimal
  import opened Schema

  const Infix: string := "_loomulik_iive_"
  const Extension: string := ".csv"

  /** The part of the file name before the year. */
  function Prefix(g: Grouping): string {
    Lower(g.Label()) + Infix
  }

  /** A prefix, a printed year and the extension. */
  function Stem(p: string, year: int): (name: string)
    ensures |name| > |p| + |Extension|
    ensures name[..|p|] == p
    ensures name[|name| - |Extension|..] == Extension
    ensures name[|p|..|name| - |Extension|] == IntToStr(year)
  {
    p + IntToStr(year) + Extension
  }

  /** The year between the prefix `p` and the extension, if `name` has that shape. */
  function YearAfter(name: string, p: string): Option<int> {
    if |name| >= |p| + |Extension| && name[..|p|] == p && name[|name| - |Extension|..] == Extension then
      ParseInt(name[|p|..|name| - |Extension|])
    else None
  }

  /** Reading the year back from a stem gives the year printed into it. */
  lemma StemRoundTrip(p: string, year: int)
    ensures YearAfter(Stem(p, year), p) == Some(year)
  {
    IntToStrRoundTrip(year);
  }

  /** A name that reads as a year after `p` is the stem of that year. */
  lemma YearAfterSound(name: string, p: string)
    requires YearAfter(name, p).Some?
    ensures Stem(p, YearAfter(name, p).value) == name
  {
    var digits := name[|p|..|name| - |Extension|];
    ParseIntRoundTrip(digits);
    assert name == name[..|p|] + digits + name[|name| - |Extension|..];
  }

  /** The download's file name for a grouping and year.  It reads back as
      exactly that grouping and year. */
  function FileName(g: Grouping, year: int): (name: string)
    ensures ParseFileName(name) == Some((g, year))
  {
    StemReadsBack(g, year);
    Stem(Prefix(g), year)
  }

  /** The year of a file name for grouping `g`, if it is one. */
  function YearFor(name: string, g: Grouping): Option<int> {
    YearAfter(name, Prefix(g))
  }

  /** Reads a file name back into its grouping and year, trying the
      groupings in the sidebar's order. */
  function ParseFileName(name: string): Option<(Grouping, int)> {
    if YearFor(name, Single(Male)).Some? then Some((Single(Male), YearFor(name, Single(Male)).value))
    else if YearFor(name, Single(Female)).Some? then Some((Single(Female), YearFor(name, Single(Female)).value))
    else if YearFor(name, Combined).Some? then Some((Combined, YearFor(name, Combined).value))
    else None
  }

  /** The first letter of a grouping's prefix. */
  function Initial(g: Grouping): char {
    match g
    case Single(Male) => 'm'
    case Single(Female) => 'n'
    case Combined => 'k'
  }

  lemma PrefixInitial(g: Grouping)
    ensures Prefix(g)[0] == Initial(g)
  {
  }

  /** The three prefixes start with different letters. */
  lemma PrefixInitials(g: Grouping, h: Grouping)
    requires g != h
    ensures Prefix(g)[0] != Prefix(h)[0]
  {
    PrefixInitial(g);
    PrefixInitial(h);
  }

  /** A stem is read only as the grouping whose prefix it carries. */
  lemma YearForOtherGrouping(g: Grouping, h: Grouping, year: int)
    requires g != h
    ensures YearFor(Stem(Prefix(g), year), h) == None
  {
    var name := Stem(Prefix(g), year);
    var ph := Prefix(h);
    PrefixInitials(g, h);
    assert name[0] == Prefix(g)[0] by {
      assert name[..|Prefix(g)|][0] == name[0];
    }
    if |name| >= |ph| {
      assert name[..|ph|][0] == name[0];
      assert name[..|ph|] != ph;
    }
  }

  /** Reading a grouping's stem gives back the grouping and the year. */
  lemma StemReadsBack(g: Grouping, year: int)
    ensures ParseFileName(Stem(Prefix(g), year)) == Some((g, year))
  {
    StemRoundTrip(Prefix(g), year);
    if g != Single(Male) { YearForOtherGrouping(g, Single(Male), year); }
    if g != Single(Female) { YearForOtherGrouping(g, Single(Female), year); }
  }

  /** Every name that reads back is the file name of what it reads as. */
  lemma ParseFileNameRoundTrip(name: string)
    requires ParseFileName(name).Some?
    ensures FileName(ParseFileName(name).value.0, ParseFileName(name).value.1) == name
  {
    if YearFor(name, Single(Male)).Some? {
      YearAfterSound(name, Prefix(Single(Male)));
    } else if YearFor(name, Single(Female)).Some? {
      YearAfterSound(name, Prefix(Single(Female)));
    } else {
      YearAfterSound(name, Prefix(Combined));
    }
  }

  /** Different choices of grouping or year download under different names. */
  lemma FileNameInjective(g1: Grouping, y1: int, g2: Grouping, y2: int)
    ensures FileName(g1, y1) == FileName(g2, y2) <==> g1 == g2 && y1 == y2
  {
  }

  /** The prefix of the combined figures, written out. */
  lemma CombinedPrefix()
    ensures Prefix(Combined) == "kokku_loomulik_iive_"
  {
  }

  /** The file name of the combined figures for 2020, written out. */
  lemma FileNameExample()
    ensures FileName(Combined, 2020) == "kokku_loomulik_iive_2020.csv"
  {
    CombinedStem();
  }

  lemma CombinedStem()
    ensures Stem(Prefix(Combined), 2020) == "kokku_loomulik_iive_2020.csv"
  {
    CombinedPrefix();
    Print2020();
  }
}
