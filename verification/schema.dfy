/** The vocabulary of the statistics table: the two sexes the query asks
    for, the three sex groupings the sidebar offers, the three indicators,
    and how a sex and an indicator name a column of the downloaded table. */
module Schema {

  /** A sex as it prefixes the indicator columns of the downloaded table. */
  datatype Sex = Male | Female {
    function Label(): string {
      match this
      case Male => "Mehed"
      case Female => "Naised"
    }
  }

  /** The "Vali sugupool" choice: one sex, or both summed ("Kokku"). */
  datatype Grouping = Single(sex: Sex) | Combined {
    function Label(): string {
      match this
      case Single(s) => s.Label()
      case Combined => "Kokku"
    }
  }

  /** The "Vali kaardimuutuja" choice. */
  datatype Indicator = Births | Deaths | NaturalChange {
    function Label(): string {
      match this
      case Births => "Elussünnid"
      case Deaths => "Surmad"
      case NaturalChange => "Loomulik iive"
    }
  }

  /** The indicators, in the order the sidebar and the table list them. */
  const Indicators: seq<Indicator> := [Births, Deaths, NaturalChange]

  /** The column of the downloaded table that holds `ind` for `s`,
      e.g. "Naised Surmad". */
  function ColumnName(s: Sex, ind: Indicator): string {
    s.Label() + " " + ind.Label()
  }

  /** The six column names are pairwise distinct, so a column determines
      both its sex and its indicator. */
  lemma ColumnNameInjective(s1: Sex, i1: Indicator, s2: Sex, i2: Indicator)
    ensures ColumnName(s1, i1) == ColumnName(s2, i2) <==> s1 == s2 && i1 == i2
  {
  }

  /** Python's `str.lower` on one character, restricted to ASCII letters,
      which is all the grouping labels contain. */
  function LowerChar(c: char): (l: char)
    ensures 'A' <= c <= 'Z' ==> 'a' <= l <= 'z' && l as int - c as int == 'a' as int - 'A' as int
    ensures !('A' <= c <= 'Z') ==> l == c
  {
    if 'A' <= c <= 'Z' then (c as int - 'A' as int + 'a' as int) as char else c
  }

  /** Python's `str.lower`, character by character. */
  function Lower(s: string): (r: string)
    ensures |r| == |s|
    ensures forall i :: 0 <= i < |s| ==> r[i] == LowerChar(s[i])
  {
    if s == [] then [] else [LowerChar(s[0])] + Lower(s[1..])
  }
}
