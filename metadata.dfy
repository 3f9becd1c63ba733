/** The record metadata of a text and the date formatter `format_date` (main.py:120-123).
    A JSON field that is absent or null is `None`; `year` is taken to be a JSON number. */
module Metadata {
  import opened Common
  import opened Strings

  /** The fields of `metadata` that the bot reads (main.py:136-143, 121-123). */
  datatype Meta = Meta(
    genre: Option<string>,
    title: Option<string>,
    author: Option<string>,
    bibliographicInfo: Option<string>,
    source: Option<string>,
    origPublicationDate: Option<string>,
    rawPublicationDate: Option<string>,
    year: Option<int>)

  const NoMeta := Meta(None, None, None, None, None, None, None, None)

  /** Python truthiness of an optional string: present and non-empty. */
  predicate Truthy(s: Option<string>) {
    s.Some? && s.value != []
  }

  /** Python truthiness of an optional number: present and non-zero. */
  predicate YearTruthy(y: Option<int>) {
    y.Some? && y.value != 0
  }

  /** `orig_publication_date` is set and has exactly three '-'-separated parts. */
  predicate HasDayMonthYear(m: Meta) {
    Truthy(m.origPublicationDate) && |Split(m.origPublicationDate.value, '-')| == 3
  }

  /** `format_date(meta)`: the three-part date reordered as "c/b/a", else the raw date
      text, else `str(year)`, else "". The empty result means "date unknown". */
  function FormatDate(m: Meta): (r: string)
    ensures r == [] <==> !HasDayMonthYear(m) && !Truthy(m.rawPublicationDate) && !YearTruthy(m.year)
    ensures HasDayMonthYear(m) ==> '/' in r
  {
    if HasDayMonthYear(m) then
      var parts := Split(m.origPublicationDate.value, '-');
      assert (parts[2] + "/" + parts[1] + "/" + parts[0])[|parts[2]|] == '/';
      parts[2] + "/" + parts[1] + "/" + parts[0]
    else if Truthy(m.rawPublicationDate) then m.rawPublicationDate.value
    else if YearTruthy(m.year) then IntToString(m.year.value)
    else ""
  }

  /** A date written "year-month-day" is shown "day/month/year". */
  lemma FormatDateReorders(m: Meta, y: string, mo: string, d: string)
    requires '-' !in y && '-' !in mo && '-' !in d
    requires m.origPublicationDate == Some(y + "-" + mo + "-" + d)
    ensures FormatDate(m) == d + "/" + mo + "/" + y
  {
    SplitAround(y + "-" + mo, d, '-');
    SplitAround(y, mo, '-');
    SplitNoSeparator(y, '-');
    SplitNoSeparator(mo, '-');
    SplitNoSeparator(d, '-');
    assert Split(m.origPublicationDate.value, '-') == [y, mo, d];
  }

  /** Without a three-part date, a non-empty raw date is shown as it is. */
  lemma FormatDateRaw(m: Meta)
    requires !HasDayMonthYear(m) && Truthy(m.rawPublicationDate)
    ensures FormatDate(m) == m.rawPublicationDate.value
  {
  }

  /** Without a usable structured or raw date, a non-zero year is shown as `str(year)`:
      its decimal digits, after a minus sign when it is negative, which read back as it. */
  lemma FormatDateYear(m: Meta)
    requires !HasDayMonthYear(m) && !Truthy(m.rawPublicationDate) && YearTruthy(m.year)
    ensures FormatDate(m) == IntToString(m.year.value)
    ensures m.year.value > 0 ==> FormatDate(m) == NatToString(m.year.value)
    ensures m.year.value > 0 ==> DecimalValue(FormatDate(m)) == m.year.value
    ensures m.year.value < 0 ==> FormatDate(m) == "-" + NatToString(-m.year.value)
    ensures m.year.value < 0 ==> DecimalValue(FormatDate(m)[1..]) == -m.year.value
  {
  }

  lemma FormatDateExampleStructured()
    ensures FormatDate(NoMeta.(origPublicationDate := Some("2023-05-17"))) == "17/05/2023"
  {
    var y, mo, d := "2023", "05", "17";
    assert "2023-05-17" == y + "-" + mo + "-" + d;
    assert '-' !in y && '-' !in mo && '-' !in d;
    FormatDateReorders(NoMeta.(origPublicationDate := Some(y + "-" + mo + "-" + d)), y, mo, d);
    assert d + "/" + mo + "/" + y == "17/05/2023";
  }

  lemma FormatDateExampleYear()
    ensures FormatDate(NoMeta.(year := Some(1948))) == "1948"
  {
    assert NatToString(1) == "1";
    assert NatToString(19) == "19";
    assert NatToString(194) == "194";
    assert NatToString(1948) == "1948";
  }

  lemma FormatDateExampleNothing()
    ensures FormatDate(NoMeta) == ""
  {
  }
}
