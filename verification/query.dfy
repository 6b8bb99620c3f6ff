/** The fixed statistics query: which years, counties and sexes the page
    asks the statistics service for, and the request body built from them. */
module Query {
  import opened Wrappers
  import opened Decimal

  /** `range(2014, 2024)`: the first year asked for and the year after the last. */
  const FirstYear: int := 2014
  const EndYear: int := 2024

  /** The years of the query, printed with `str`: ten entries, entry i
      reading back as 2014 + i, so the list is strictly ascending. */
  function Years(): (ys: seq<string>)
    ensures |ys| == 10
    ensures forall i :: 0 <= i < |ys| ==> ParseInt(ys[i]) == Some(2014 + i)
    ensures forall i, j :: 0 <= i < j < |ys| ==> ParseInt(ys[i]).value < ParseInt(ys[j]).value
  {
    var ys := PrintedYears();
    assert forall i :: 0 <= i < |ys| ==> ParseInt(ys[i]) == Some(2014 + i) by {
      forall i | 0 <= i < |ys|
        ensures ParseInt(ys[i]) == Some(2014 + i)
      {
        IntToStrRoundTrip(2014 + i);
      }
    }
    ys
  }

  /** `[str(y) for y in range(2014, 2024)]`. */
  function PrintedYears(): seq<string> {
    seq(EndYear - FirstYear, i => IntToStr(FirstYear + i))
  }

  /** The fourteen county codes of the query. */
  const CountyCodes: seq<string> :=
    ["39", "44", "49", "51", "57", "59", "65", "67", "70", "74", "78", "82", "84", "86"]

  /** The sex codes of the query: 2 is male, 3 is female. */
  const SexCodes: seq<string> := ["2", "3"]

  /** One dimension of the query: a variable code and the items selected. */
  datatype Selection = Selection(code: string, filter: string, values: seq<string>)

  /** The JSON body sent to the statistics service. */
  datatype Payload = Payload(query: seq<Selection>, format: string)

  /** The request body of the statistics query. */
  function BuildPayload(): (p: Payload)
    ensures |p.query| == 3
    ensures p.query[0] == Selection("Aasta", "item",
      ["2014", "2015", "2016", "2017", "2018", "2019", "2020", "2021", "2022", "2023"])
    ensures p.query[1].code == "Maakond" && p.query[1].filter == "item"
    ensures |p.query[1].values| == 14
    ensures forall i, j :: 0 <= i < j < 14 ==> p.query[1].values[i] != p.query[1].values[j]
    ensures p.query[2] == Selection("Sugu", "item", ["2", "3"])
    ensures p.format == "csv"
  {
    YearsLiteral();
    Payload(
      [ Selection("Aasta", "item", Years()),
        Selection("Maakond", "item", CountyCodes),
        Selection("Sugu", "item", SexCodes) ],
      "csv")
  }

  /** The printed years, written out. */
  lemma YearsLiteral()
    ensures PrintedYears() == ["2014", "2015", "2016", "2017", "2018", "2019", "2020", "2021", "2022", "2023"]
  {
    assert NatToDigits(201) == "201" && NatToDigits(202) == "202" by {
      assert NatToDigits(2) == "2";
      assert NatToDigits(20) == "20";
    }
    var ys := PrintedYears();
    assert |ys| == 10;
    assert ys[0] == IntToStr(2014);
    assert NatToDigits(2014) == NatToDigits(201) + [DigitChar(4)];
    assert ys[0] == "2014";
    assert ys[1] == IntToStr(2015);
    assert NatToDigits(2015) == NatToDigits(201) + [DigitChar(5)];
    assert ys[1] == "2015";
    assert ys[2] == IntToStr(2016);
    assert NatToDigits(2016) == NatToDigits(201) + [DigitChar(6)];
    assert ys[2] == "2016";
    assert ys[3] == IntToStr(2017);
    assert NatToDigits(2017) == NatToDigits(201) + [DigitChar(7)];
    assert ys[3] == "2017";
    assert ys[4] == IntToStr(2018);
    assert NatToDigits(2018) == NatToDigits(201) + [DigitChar(8)];
    assert ys[4] == "2018";
    assert ys[5] == IntToStr(2019);
    assert NatToDigits(2019) == NatToDigits(201) + [DigitChar(9)];
    assert ys[5] == "2019";
    assert ys[6] == IntToStr(2020);
    assert NatToDigits(2020) == NatToDigits(202) + [DigitChar(0)];
    assert ys[6] == "2020";
    assert ys[7] == IntToStr(2021);
    assert NatToDigits(2021) == NatToDigits(202) + [DigitChar(1)];
    assert ys[7] == "2021";
    assert ys[8] == IntToStr(2022);
    assert NatToDigits(2022) == NatToDigits(202) + [DigitChar(2)];
    assert ys[8] == "2022";
    assert ys[9] == IntToStr(2023);
    assert NatToDigits(2023) == NatToDigits(202) + [DigitChar(3)];
    assert ys[9] == "2023";
  }
}
