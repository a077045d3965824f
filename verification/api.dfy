/**
 * The eCFR API client (`ECFRClient`): how raw agency records become the
 * dashboard's `Agency` values, and which versioner requests `getTitleContent`
 * makes for a title and a date. The HTTP transport is a parameter: a
 * function from (title, date) to what the server answered.
 */
module Api {
  import opened Wrappers
  import opened Decimal
  import CivilDate

  /** One entry of an agency's `cfr_references`. */
  datatype CfrReference = CfrReference(title: SafeInteger, chapter: string)

  /** An agency as the admin API returns it; `short_name` may be missing, null or empty. */
  datatype ApiAgency = ApiAgency(
    name: string,
    shortName: Option<string>,
    slug: string,
    cfrReferences: seq<CfrReference>)

  /** The normalised agency the dashboard works with. */
  datatype Agency = Agency(id: string, name: string, titles: seq<string>)

  /** The body of a versioner response: XML text, or anything else (a parsed JSON value, `null`, ...). */
  datatype Content = Text(text: string) | NonText

  /** What one versioner request produced: a body, an HTTP error status, or another thrown error. */
  datatype Reply = Body(content: Content) | HttpError(status: int) | OtherError

  /** A value a failed call threw: an `Error` object with its message, or any other value. */
  datatype Thrown = ErrorObject(message: string) | OtherValue

  /** The requests `getTitleContent` made, in order, and the reply it settled with. */
  datatype Fetch = Fetch(requestedDates: seq<string>, reply: Reply)

  /** The agency's id: its short name when that is present and non-empty, otherwise its slug. */
  function AgencyId(raw: ApiAgency): (id: string)
    ensures id == raw.slug || raw.shortName == Some(id)
    ensures id == "" <==> raw.slug == "" && (raw.shortName.None? || raw.shortName.value == "")
    ensures raw.shortName.Some? && raw.shortName.value != "" ==> id == raw.shortName.value
  {
    match raw.shortName
    case Some(s) => if s != "" then s else raw.slug
    case None => raw.slug
  }

  /** The title numbers of the references, in order. */
  function ReferencedTitles(refs: seq<CfrReference>): seq<SafeInteger>
  {
    if |refs| == 0 then [] else [refs[0].title] + ReferencedTitles(refs[1..])
  }

  /** The title numbers of the references as `toString` prints them, one string per reference, in order. */
  function TitleStrings(refs: seq<CfrReference>): (titles: seq<string>)
    ensures |titles| == |refs|
    ensures forall i :: 0 <= i < |refs| ==> titles[i] == IntToDecimal(refs[i].title)
  {
    if |refs| == 0 then [] else [IntToDecimal(refs[0].title)] + TitleStrings(refs[1..])
  }

  function NormalizeAgency(raw: ApiAgency): Agency
  {
    Agency(AgencyId(raw), raw.name, TitleStrings(raw.cfrReferences))
  }

  /** The transformation in `getAgencies`: one `Agency` per raw record, in order. */
  function NormalizeAgencies(raws: seq<ApiAgency>): (agencies: seq<Agency>)
    ensures |agencies| == |raws|
    ensures forall i :: 0 <= i < |raws| ==> agencies[i] == NormalizeAgency(raws[i])
    ensures forall i :: 0 <= i < |raws| && raws[i].shortName.Some? && raws[i].shortName.value != "" ==>
              agencies[i].id == raws[i].shortName.value
    ensures forall i :: 0 <= i < |raws| && (raws[i].shortName.None? || raws[i].shortName.value == "") ==>
              agencies[i].id == raws[i].slug
    ensures forall i :: 0 <= i < |raws| ==> agencies[i].name == raws[i].name
    ensures forall i :: 0 <= i < |raws| ==> |agencies[i].titles| == |raws[i].cfrReferences|
  {
    if |raws| == 0 then [] else [NormalizeAgency(raws[0])] + NormalizeAgencies(raws[1..])
  }

  /** Each title string reads back as the title number of the reference at the same position. */
  lemma TitlesReadBack(raw: ApiAgency, i: int)
    requires 0 <= i < |raw.cfrReferences|
    ensures ParseInteger(NormalizeAgency(raw).titles[i]) == Some(raw.cfrReferences[i].title as int)
    ensures CanonicalInteger(NormalizeAgency(raw).titles[i])
  {
    IntToDecimalRoundTrip(raw.cfrReferences[i].title);
  }

  /** A title number referenced k times appears k times among the titles: duplicates are kept, none are merged. */
  lemma {:induction false} TitlesKeepMultiplicity(refs: seq<CfrReference>, n: SafeInteger)
    ensures multiset(TitleStrings(refs))[IntToDecimal(n)] == multiset(ReferencedTitles(refs))[n]
  {
    if |refs| > 0 {
      var head, rest := refs[0].title, refs[1..];
      TitlesKeepMultiplicity(rest, n);
      IntToDecimalInjective(head, n);
      assert TitleStrings(refs) == [IntToDecimal(head)] + TitleStrings(rest);
      assert ReferencedTitles(refs) == [head] + ReferencedTitles(rest);
      assert multiset(TitleStrings(refs))[IntToDecimal(n)]
          == multiset([IntToDecimal(head)])[IntToDecimal(n)] + multiset(TitleStrings(rest))[IntToDecimal(n)];
      assert multiset(ReferencedTitles(refs))[n] == multiset([head])[n] + multiset(ReferencedTitles(rest))[n];
    }
  }

  /** The date put into the request path: `'current'` becomes today's UTC date, anything else is used as given. */
  function RequestDate(date: string, now: int): (formatted: string)
    requires date == "current" ==> CivilDate.InFourDigitYears(now)
    ensures date != "current" ==> formatted == date
    ensures date == "current" ==>
              |formatted| == 10 && CivilDate.ParseDateKey(formatted) == Some(CivilDate.DayOf(now) * CivilDate.MsPerDay)
  {
    if date == "current" then
      CivilDate.IsoDateRoundTrip(now);
      CivilDate.IsoDate(now)
    else date
  }

  /**
   * `getTitleContent(title, date)`: request the title at the formatted date;
   * on a 404 for any date other than `'latest'`, make one more request for
   * `'latest'`; settle with the last reply (rethrowing when it is an error).
   * `now` is the clock reading used when date is `'current'`.
   */
  function GetTitleContent(server: (string, string) -> Reply, title: string, date: string, now: int): (f: Fetch)
    requires date == "current" ==> CivilDate.InFourDigitYears(now)
    ensures 1 <= |f.requestedDates| <= 2
    ensures f.requestedDates[0] == (if date == "current" then CivilDate.IsoDate(now) else date)
    ensures |f.requestedDates| == 2 <==> date != "latest" && server(title, f.requestedDates[0]) == HttpError(404)
    ensures |f.requestedDates| == 2 ==> f.requestedDates[1] == "latest"
    ensures f.reply == server(title, f.requestedDates[|f.requestedDates| - 1])
    decreases if date == "latest" then 0 else 1
  {
    var formatted := RequestDate(date, now);
    var reply := server(title, formatted);
    if reply == HttpError(404) && date != "latest" then
      var retry := GetTitleContent(server, title, "latest", now);
      Fetch([formatted] + retry.requestedDates, retry.reply)
    else
      Fetch([formatted], reply)
  }
}
