/**
 * The date helpers of the scheduler: `toISODate` (store form `YYYY-MM-DD`),
 * `formatBR` (display form `DD/MM/YYYY`, used as the view-model key) and
 * `toISODateBR` (display form back to store form), with the parsers that
 * invert the two renderings.
 */
module DateFormat {

  import opened Wrappers
  import opened Calendar
  import opened Decimal

  /** `toISODate`: the year as `String(y)`, month and day zero-padded to two digits. */
  function ToISODate(d: Date): string
    requires ValidDate(d)
  {
    IntToString(d.year) + "-" + Pad2(d.month) + "-" + Pad2(d.day)
  }

  /**
   * The store form ends in `-MM-DD`, two digits each reading back as month
   * and day, after the year as `String(y)`; four-digit years give ten characters.
   */
  lemma ToISODateShape(d: Date)
    requires ValidDate(d)
    ensures var r := ToISODate(d);
      && |r| == |IntToString(d.year)| + 6
      && r[..|r| - 6] == IntToString(d.year)
      && r[|r| - 6] == '-' && r[|r| - 3] == '-'
      && AllDigits(r[|r| - 5..|r| - 3]) && ParseNat(r[|r| - 5..|r| - 3]) == d.month
      && AllDigits(r[|r| - 2..]) && ParseNat(r[|r| - 2..]) == d.day
      && (1000 <= d.year <= 9999 ==> |r| == 10)
  {
    var y, mm, dd := IntToString(d.year), Pad2(d.month), Pad2(d.day);
    var r := y + "-" + mm + "-" + dd;
    assert r == ToISODate(d);
    assert |r| == |y| + 6;
    assert r[..|r| - 6] == y;
    assert r[|r| - 5..|r| - 3] == mm;
    assert r[|r| - 2..] == dd;
    FourDigitYear(d.year);
  }

  lemma FourDigitYear(y: int)
    ensures 1000 <= y <= 9999 ==> |IntToString(y)| == 4
  {
    if 1000 <= y <= 9999 {
      assert |NatToString(y / 1000)| == 1;
      assert |NatToString(y / 100)| == 2;
      assert |NatToString(y / 10)| == 3;
    }
  }

  /** `formatBR`: the `pt-BR` rendering with two-digit day and month and a numeric year. */
  function FormatBR(d: Date): string
    requires ValidDate(d)
  {
    Join([Pad2(d.day), Pad2(d.month), IntToString(d.year)], '/')
  }

  /** The piece at position `i` of a split, or the text `undefined` JavaScript interpolates for a missing one. */
  function Piece(parts: seq<string>, i: nat): string {
    if i < |parts| then parts[i] else "undefined"
  }

  /** `toISODateBR`: split on `/`, destructure `[d, m, y]` and reassemble as `y-m-d`. */
  function ToISODateBR(br: string): string
  {
    var parts := Split(br, '/');
    Piece(parts, 2) + "-" + Piece(parts, 1) + "-" + Piece(parts, 0)
  }

  /** Reads a display-form date `D/M/Y`; absent unless it names a valid calendar date. */
  function ParseBR(s: string): (r: Option<Date>)
    ensures r.Some? ==> ValidDate(r.value)
  {
    var parts := Split(s, '/');
    if |parts| != 3 || !AllDigits(parts[0]) || !AllDigits(parts[1]) then None
    else match ParseInt(parts[2])
      case None => None
      case Some(y) =>
        var d := Date(y, ParseNat(parts[1]), ParseNat(parts[0]));
        if ValidDate(d) then Some(d) else None
  }

  /** Reads a store-form date `Y-MM-DD`; absent unless it names a valid calendar date. */
  function ParseISODate(s: string): (r: Option<Date>)
    ensures r.Some? ==> ValidDate(r.value)
  {
    if |s| < 7 || s[|s| - 6] != '-' || s[|s| - 3] != '-' then None
    else if !AllDigits(s[|s| - 5..|s| - 3]) || !AllDigits(s[|s| - 2..]) then None
    else match ParseInt(s[..|s| - 6])
      case None => None
      case Some(y) =>
        var d := Date(y, ParseNat(s[|s| - 5..|s| - 3]), ParseNat(s[|s| - 2..]));
        if ValidDate(d) then Some(d) else None
  }

  lemma NoSlash(s: string)
    requires AllDigits(s) || (|s| >= 1 && s[0] == '-' && AllDigits(s[1..]))
    ensures '/' !in s
  {
    if !AllDigits(s) {
      forall i | 1 <= i < |s| ensures s[i] != '/' { assert s[1..][i - 1] == s[i]; }
    }
  }

  /** The display form splits into exactly its three fields. */
  lemma SplitFormatBR(d: Date)
    requires ValidDate(d)
    ensures Split(FormatBR(d), '/') == [Pad2(d.day), Pad2(d.month), IntToString(d.year)]
  {
    var parts := [Pad2(d.day), Pad2(d.month), IntToString(d.year)];
    NoSlash(parts[0]);
    NoSlash(parts[1]);
    NoSlash(parts[2]);
    SplitJoin(parts, '/');
  }

  /** The display key maps back to the store form: `toISODateBR(formatBR(d)) == toISODate(d)`. */
  lemma ToISODateBRFormatBR(d: Date)
    requires ValidDate(d)
    ensures ToISODateBR(FormatBR(d)) == ToISODate(d)
  {
    SplitFormatBR(d);
  }

  /** Display form is lossless: parsing it gives the date back. */
  lemma ParseFormatBR(d: Date)
    requires ValidDate(d)
    ensures ParseBR(FormatBR(d)) == Some(d)
  {
    SplitFormatBR(d);
    ParseIntToString(d.year);
  }

  /** Store form is lossless: parsing it gives the date back. */
  lemma ParseToISODate(d: Date)
    requires ValidDate(d)
    ensures ParseISODate(ToISODate(d)) == Some(d)
  {
    ToISODateShape(d);
    ParseIntToString(d.year);
  }

  /** Distinct dates get distinct display keys, so grouping by key is grouping by date. */
  lemma FormatBRInjective(a: Date, b: Date)
    requires ValidDate(a) && ValidDate(b)
    ensures FormatBR(a) == FormatBR(b) <==> a == b
  {
    ParseFormatBR(a);
    ParseFormatBR(b);
  }
}
