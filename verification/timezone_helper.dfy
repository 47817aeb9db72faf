/** The symbol-to-timezone lookup and the Beijing-time formatting guard.
    The date formatter itself (`Intl.DateTimeFormat` in Asia/Shanghai) is an
    input, `render`; `parse` stands for `new Date(s).getTime()` and is `None`
    for an invalid date. */
module TimezoneHelper {
  import opened Wrappers
  import opened Text

  const CHICAGO: string := "America/Chicago"
  const TOKYO: string := "Asia/Tokyo"
  const DEFAULT_TIMEZONE: string := "UTC"

  /** Symbol prefixes and their exchange's timezone, in the order the lookup
      tries them (the object's key order). */
  const SYMBOL_TIMEZONES: seq<(string, string)> := [("MES", CHICAGO), ("N225MC", TOKYO)]

  /** The timezone of the first entry whose prefix starts `symbol`, if any. */
  function FirstPrefixMatch(table: seq<(string, string)>, symbol: string): (r: Option<string>)
    ensures r.None? <==> forall k :: 0 <= k < |table| ==> !StartsWith(symbol, table[k].0)
    ensures r.Some? ==> exists k :: 0 <= k < |table| && StartsWith(symbol, table[k].0) && r.value == table[k].1
                                    && forall j :: 0 <= j < k ==> !StartsWith(symbol, table[j].0)
  {
    if table == [] then None
    else if StartsWith(symbol, table[0].0) then Some(table[0].1)
    else
      var r := FirstPrefixMatch(table[1..], symbol);
      assert forall k :: 0 < k < |table| ==> table[k] == table[1..][k - 1];
      if r.Some? then
        assert exists k :: 0 <= k < |table| && StartsWith(symbol, table[k].0) && r.value == table[k].1
                           && forall j :: 0 <= j < k ==> !StartsWith(symbol, table[j].0) by {
          var k :| 0 <= k < |table[1..]| && StartsWith(symbol, table[1..][k].0) && r.value == table[1..][k].1
                   && forall j :: 0 <= j < k ==> !StartsWith(symbol, table[1..][j].0);
          assert table[k + 1] == table[1..][k];
          forall j | 0 <= j < k + 1
            ensures !StartsWith(symbol, table[j].0)
          {
            if j > 0 {
              assert table[j] == table[1..][j - 1];
            }
          }
        }
        r
      else r
  }

  /** `getTimezoneForSymbol`. */
  function GetTimezoneForSymbol(symbol: string): (zone: string)
    ensures zone == CHICAGO || zone == TOKYO || zone == DEFAULT_TIMEZONE
  {
    match FirstPrefixMatch(SYMBOL_TIMEZONES, symbol)
    case Some(z) => z
    case None => DEFAULT_TIMEZONE
  }

  /** Symbols of the CME micro contracts are read in Chicago time, those of
      the Osaka Nikkei contract in Tokyo time, all others in UTC. */
  lemma GetTimezoneForSymbolMeaning(symbol: string)
    ensures StartsWith(symbol, "MES") ==> GetTimezoneForSymbol(symbol) == CHICAGO
    ensures !StartsWith(symbol, "MES") && StartsWith(symbol, "N225MC") ==> GetTimezoneForSymbol(symbol) == TOKYO
    ensures !StartsWith(symbol, "MES") && !StartsWith(symbol, "N225MC") ==> GetTimezoneForSymbol(symbol) == DEFAULT_TIMEZONE
  {
    var r := FirstPrefixMatch(SYMBOL_TIMEZONES, symbol);
    if r.Some? {
      var k :| 0 <= k < |SYMBOL_TIMEZONES| && StartsWith(symbol, SYMBOL_TIMEZONES[k].0) && r.value == SYMBOL_TIMEZONES[k].1
               && forall j :: 0 <= j < k ==> !StartsWith(symbol, SYMBOL_TIMEZONES[j].0);
      assert k == 0 || k == 1;
    } else {
      assert !StartsWith(symbol, SYMBOL_TIMEZONES[0].0) && !StartsWith(symbol, SYMBOL_TIMEZONES[1].0);
    }
  }

  /** The two prefixes exclude each other, so the table's order never decides
      between them. */
  lemma PrefixesAreExclusive(symbol: string)
    ensures !(StartsWith(symbol, "MES") && StartsWith(symbol, "N225MC"))
  {
    if StartsWith(symbol, "MES") {
      assert symbol[..3][0] == 'M';
      assert symbol[0] != 'N';
    }
  }

  datatype DateFormat = Full | TimeOnly

  /** `formatDateTimeInBeijing`: an invalid date is returned as given;
      a valid one is rendered in Beijing time by `render`. */
  function FormatDateTimeInBeijing(datetime: string, format: DateFormat, parse: string -> Option<int>,
                                   render: (int, DateFormat) -> string): (r: string)
    ensures parse(datetime).None? ==> r == datetime
    ensures parse(datetime).Some? ==> r == render(parse(datetime).value, format)
  {
    match parse(datetime)
    case None => datetime
    case Some(t) => render(t, format)
  }
}
