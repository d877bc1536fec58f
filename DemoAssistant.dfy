/**
 * The investor-relations assistant in demo mode: a question is normalised,
 * routed to the first of five keyword rules that matches, and answered
 * from rows of the portfolio, KAP notification and financial KPI tables.
 * The rows each rule's query returns are inputs here, and Python's number
 * formatting is a pair of formatter functions.
 */
module DemoAssistant {
  import opened Wrappers
  import opened Strings

  /** A KAP (Public Disclosure Platform) notification, as stored. */
  datatype KapNotification = KapNotification(
    id: int,
    companyCode: string,
    kapId: string,
    kind: Option<string>,
    title: Option<string>,
    publishDatetime: Option<string>,
    url: Option<string>,
    createdAt: Option<string>)

  /** The answer and, for Pendorya questions, the notifications it is based on. */
  datatype AssistantResponse = AssistantResponse(answer: string, sources: Option<seq<KapNotification>>)

  /** A row of the portfolio-total query: name and valuation in TL. */
  datatype ValuationRow = ValuationRow(name: string, valuation: Option<real>)

  /** The Pendorya row of the portfolio table. */
  datatype PendoryaRow = PendoryaRow(valuation: Option<real>, glaSqm: Option<real>, grossAreaSqm: Option<real>)

  /** The Divan Adana row of the portfolio table. */
  datatype HotelRow = HotelRow(name: string, rooms: Option<int>, valuation: Option<real>)

  /** A row of the financial KPI table. */
  datatype KpiRow = KpiRow(equity: Option<real>, period: string)

  /** What each rule's query returns, in the order the query sorts and limits it to. */
  datatype DemoData = DemoData(
    portfolio: seq<ValuationRow>,
    pendoryaNotifications: seq<KapNotification>,
    pendoryaProperties: seq<PendoryaRow>,
    divanProperties: seq<HotelRow>,
    cityCounts: seq<int>,
    latestKpis: seq<KpiRow>)

  /** Python's `f"{x:,.0f}"` for amounts and `str(n)` for integers. */
  datatype NumberFormats = NumberFormats(amount: real -> string, integer: int -> string)

  /** The rules, in the order they are tried, and the fallback. */
  datatype Intent = PortfolioTotal | Pendorya | DivanHotel | CityCount | Equity | Fallback

  const Rules: seq<Intent> := [PortfolioTotal, Pendorya, DivanHotel, CityCount, Equity]

  const FallbackAnswer: string :=
    "Şu anda demo modundayım. Portföy toplam değeri, Pendorya AVM, Divan Adana Oteli, "
    + "portföydeki şehir sayısı ve özkaynak gibi konularda soru sorabilirsiniz."

  const DefaultDetails: string := "detaylar portföy tablosunda yer almaktadır"

  /** `(question or "").lower().strip()`. */
  function Normalize(question: Option<string>, fold: char -> char): (q: string)
    ensures exists i :: StripsTo(Lower(question.GetOr(""), fold), q, i)
    ensures Stripped(q)
    ensures |q| <= |question.GetOr("")|
  {
    var r := Strip(Lower(question.GetOr(""), fold));
    assert exists i :: StripsTo(Lower(question.GetOr(""), fold), r, i);
    r
  }

  /** Whether rule `rule` applies to the normalised question `q`. */
  function Matches(rule: Intent, q: string): (m: bool)
    ensures rule == Fallback ==> m
    ensures m && rule != Fallback ==> |q| >= 3
  {
    match rule
    case PortfolioTotal => Contains(q, "portföy") && (Contains(q, "toplam") || Contains(q, "değer") || Contains(q, "nav"))
    case Pendorya => Contains(q, "pendorya")
    case DivanHotel => Contains(q, "divan") || Contains(q, "adana otel") || Contains(q, "adana oteli")
    case CityCount => Contains(q, "kaç şehir") || Contains(q, "kaç il") || Contains(q, "şehir sayısı")
    case Equity => Contains(q, "öz kaynak") || Contains(q, "özkaynak") || Contains(q, "equity")
    case Fallback => true
  }

  /** Rule `k` of `Rules` applies and no earlier rule does. */
  predicate FirstMatch(q: string, k: int) {
    0 <= k < |Rules| && Matches(Rules[k], q) && forall j :: 0 <= j < k ==> !Matches(Rules[j], q)
  }

  /** The rule `answer_with_demo_rules` follows for `q`: the tests are tried in order. */
  function Classify(q: string): (i: Intent)
    ensures i == Fallback <==> forall k :: 0 <= k < |Rules| ==> !Matches(Rules[k], q)
    ensures i != Fallback ==> exists k :: FirstMatch(q, k) && Rules[k] == i
  {
    if Matches(PortfolioTotal, q) then
      assert FirstMatch(q, 0);
      PortfolioTotal
    else if Matches(Pendorya, q) then
      assert FirstMatch(q, 1);
      Pendorya
    else if Matches(DivanHotel, q) then
      assert FirstMatch(q, 2);
      DivanHotel
    else if Matches(CityCount, q) then
      assert FirstMatch(q, 3);
      CityCount
    else if Matches(Equity, q) then
      assert FirstMatch(q, 4);
      Equity
    else
      Fallback
  }

  /** Python truthiness of an optional number: present and non-zero. */
  predicate Truthy(x: Option<real>) {
    x.Some? && x.value != 0.0
  }

  /** `sum((r["valuation_value_tl"] or 0) for r in rows)`. */
  function TotalValuation(rows: seq<ValuationRow>): (total: real)
    ensures (forall k :: 0 <= k < |rows| ==> rows[k].valuation.GetOr(0.0) >= 0.0) ==> total >= 0.0
  {
    if rows == [] then 0.0
    else TotalValuation(rows[..|rows| - 1]) + rows[|rows| - 1].valuation.GetOr(0.0)
  }

  function ValuationText(value: real, fmt: NumberFormats): string {
    "ekspertiz değeri yaklaşık " + fmt.amount(value) + " TL"
  }

  function GrossAreaText(area: real, fmt: NumberFormats): string {
    "brüt kapalı alan " + fmt.amount(area) + " m²"
  }

  function LettableAreaText(area: real, fmt: NumberFormats): string {
    "kiralanabilir alan " + fmt.amount(area) + " m²"
  }

  /** The detail texts of the Pendorya row, each only when its value is truthy. */
  function DetailParts(p: PendoryaRow, fmt: NumberFormats): seq<string> {
    (if Truthy(p.valuation) then [ValuationText(p.valuation.value, fmt)] else [])
    + (if Truthy(p.grossAreaSqm) then [GrossAreaText(p.grossAreaSqm.value, fmt)] else [])
    + (if Truthy(p.glaSqm) then [LettableAreaText(p.glaSqm.value, fmt)] else [])
  }

  /** `", ".join(parts) if parts else` the default text. */
  function PendoryaDetails(p: PendoryaRow, fmt: NumberFormats): string {
    var parts := DetailParts(p, fmt);
    if parts != [] then Join(parts, ", ") else DefaultDetails
  }

  /** Builds the Pendorya details by appending to a list of parts, then joining it. */
  method BuildPendoryaDetails(p: PendoryaRow, fmt: NumberFormats) returns (details: string)
    ensures details == PendoryaDetails(p, fmt)
  {
    ghost var whole := DetailParts(p, fmt);
    var parts: seq<string> := [];
    if Truthy(p.valuation) {
      parts := parts + [ValuationText(p.valuation.value, fmt)];
    }
    ghost var afterValuation := parts;
    if Truthy(p.grossAreaSqm) {
      parts := parts + [GrossAreaText(p.grossAreaSqm.value, fmt)];
    }
    ghost var afterGross := parts;
    if Truthy(p.glaSqm) {
      parts := parts + [LettableAreaText(p.glaSqm.value, fmt)];
    }
    assert whole == afterValuation + (afterGross[|afterValuation|..]) + parts[|afterGross|..];
    assert parts == afterValuation + (afterGross[|afterValuation|..]) + parts[|afterGross|..];
    details := if parts != [] then Join(parts, ", ") else DefaultDetails;
  }

  // Texts the answers must be told apart by are written as two literals,
  // so that the proofs can tell the answers apart character by character.
  const PendoryaListing: string := "Pendorya ile ilgili bazı KAP " + "bildirimlerini aşağıda listeliyorum."
  const PendoryaMissing: string :=
    "Pendorya ile ilgili kayıt bulunamadı. " + "Önce KAP verisini senkronize etmeyi deneyebilirsin."
  const HotelMissing: string := "Divan Adana Oteli için " + "portföy tablosunda kayıt bulunamadı."
  const CitiesMissing: string := "Portföy tablosunda şehir bilgisi bulunamadı."
  const EquityMissing: string := "Finansal KPI tablosunda " + "özkaynak bilgisi bulunamadı."
  const PendoryaIntro: string := "Pendorya AVM portföydeki dört ana varlıktan biri; "
  const PortfolioMissing: string := "Portföy tablosunda veri bulunamadı."

  /**
   * The answer to a Pendorya question: the details when the portfolio has a
   * Pendorya row, else the listing note when there are notifications, else
   * the not-found text.
   */
  function PendoryaAnswer(data: DemoData, fmt: NumberFormats): (r: string)
    ensures r == PendoryaMissing <==> data.pendoryaProperties == [] && data.pendoryaNotifications == []
    ensures r == PendoryaListing <==> data.pendoryaProperties == [] && data.pendoryaNotifications != []
    ensures data.pendoryaProperties != [] ==>
      r == PendoryaIntro + PendoryaDetails(data.pendoryaProperties[0], fmt) + "."
  {
    if data.pendoryaProperties != [] then
      var r := PendoryaIntro + PendoryaDetails(data.pendoryaProperties[0], fmt) + ".";
      assert r[9] == 'A' && PendoryaMissing[9] == 'i' && PendoryaListing[9] == 'i';
      r
    else if data.pendoryaNotifications != [] then
      assert PendoryaListing[20] != PendoryaMissing[20];
      PendoryaListing
    else
      PendoryaMissing
  }

  /**
   * The answer to a Divan Adana question: not found exactly when there is no
   * row; a found hotel's answer opens with its name.
   */
  function HotelAnswer(rows: seq<HotelRow>, fmt: NumberFormats): (r: string)
    ensures r == HotelMissing <==> rows == []
    ensures rows != [] ==> |rows[0].name| <= |r| && r[..|rows[0].name|] == rows[0].name
  {
    if rows == [] then HotelMissing
    else
      var h := rows[0];
      var roomInfo :=
        if h.rooms.Some? && h.rooms.value != 0 then fmt.integer(h.rooms.value) + " odalı"
        else "oda sayısı bilgisi portföy tablosunda";
      var valueInfo :=
        if Truthy(h.valuation) then ValuationText(h.valuation.value, fmt)
        else "ekspertiz değeri portföy tablosunda yer alıyor";
      var rest := " portföyde yer alan bir şehir otelidir; " + roomInfo + ", " + valueInfo + ".";
      assert (h.name + rest)[..|h.name|] == h.name;
      assert rest[|rest| - 2] == valueInfo[|valueInfo| - 1] by {
        assert rest == (" portföyde yer alan bir şehir otelidir; " + roomInfo + ", ") + valueInfo + ".";
      }
      assert (h.name + rest)[|h.name + rest| - 2] in "Lr";
      assert HotelMissing[|HotelMissing| - 2] == 'ı';
      h.name + rest
  }

  /** The answer to a city-count question: not found exactly when the count is missing or zero. */
  function CityCountAnswer(counts: seq<int>, fmt: NumberFormats): (r: string)
    ensures r == CitiesMissing <==> counts == [] || counts[0] == 0
  {
    var count := if counts != [] then counts[0] else 0;
    if count != 0 then
      var r := "Portföy şu anda " + fmt.integer(count) + " farkl şehirde gayrimenkul içermektedir.";
      assert r[8] == 'ş' && CitiesMissing[8] == 't';
      r
    else CitiesMissing
  }

  /**
   * The answer to an equity question: not found exactly when there is no
   * KPI row or the latest one's equity is null (a zero equity is reported).
   */
  function EquityAnswer(rows: seq<KpiRow>, fmt: NumberFormats): (r: string)
    ensures r == EquityMissing <==> rows == [] || rows[0].equity.None?
  {
    if rows != [] && rows[0].equity.Some? then
      var r := "En güncel dönemde (" + rows[0].period + ") özkaynak değeri yaklaşık "
        + fmt.amount(rows[0].equity.value) + " TL'dir.";
      assert r[0] == 'E' && EquityMissing[0] == 'F';
      r
    else EquityMissing
  }

  /** The answer to a portfolio-total question: not found exactly when the table is empty. */
  function PortfolioAnswer(rows: seq<ValuationRow>, fmt: NumberFormats): (r: string)
    ensures r == PortfolioMissing <==> rows == []
  {
    if rows == [] then PortfolioMissing
    else
      var r := "30.06.2025 tarihli ekspertizlere göre " + "gayrimenkul portföyünün toplam değeri "
        + "yaklaşık " + fmt.amount(TotalValuation(rows)) + " TL. En büyük pay "
        + rows[0].name + " varlığına ait.";
      assert r[0] == '3' && PortfolioMissing[0] == 'P';
      r
  }

  /**
   * `answer_with_demo_rules`: the answer of the first rule that matches.
   * Only a Pendorya answer carries sources, and it carries the notifications
   * exactly when there are some.
   */
  function AnswerWithDemoRules(question: Option<string>, data: DemoData, fmt: NumberFormats, fold: char -> char)
    : (r: AssistantResponse)
    ensures r.sources.Some? ==>
      (Classify(Normalize(question, fold)) == Pendorya
       && r.sources.value == data.pendoryaNotifications && r.sources.value != [])
    ensures Classify(Normalize(question, fold)) == Pendorya && data.pendoryaNotifications != []
      ==> r.sources == Some(data.pendoryaNotifications)
    ensures Classify(Normalize(question, fold)) == PortfolioTotal
      ==> r == AssistantResponse(PortfolioAnswer(data.portfolio, fmt), None)
    ensures Classify(Normalize(question, fold)) == Pendorya ==> r.answer == PendoryaAnswer(data, fmt)
    ensures Classify(Normalize(question, fold)) == DivanHotel
      ==> r == AssistantResponse(HotelAnswer(data.divanProperties, fmt), None)
    ensures Classify(Normalize(question, fold)) == CityCount
      ==> r == AssistantResponse(CityCountAnswer(data.cityCounts, fmt), None)
    ensures Classify(Normalize(question, fold)) == Equity
      ==> r == AssistantResponse(EquityAnswer(data.latestKpis, fmt), None)
    ensures Classify(Normalize(question, fold)) == Fallback ==> r == AssistantResponse(FallbackAnswer, None)
  {
    var q := Normalize(question, fold);
    match Classify(q)
    case PortfolioTotal => AssistantResponse(PortfolioAnswer(data.portfolio, fmt), None)
    case Pendorya =>
      var sources := if data.pendoryaNotifications != [] then Some(data.pendoryaNotifications) else None;
      AssistantResponse(PendoryaAnswer(data, fmt), sources)
    case DivanHotel => AssistantResponse(HotelAnswer(data.divanProperties, fmt), None)
    case CityCount => AssistantResponse(CityCountAnswer(data.cityCounts, fmt), None)
    case Equity => AssistantResponse(EquityAnswer(data.latestKpis, fmt), None)
    case Fallback => AssistantResponse(FallbackAnswer, None)
  }

  /** `answer_with_external_ai`: the production engine is a placeholder that never answers. */
  function ExternalAnswer(question: string): (r: Option<AssistantResponse>)
    ensures r.None?
  {
    None
  }

  /** The demo rules read the question only through its normal form. */
  lemma SameQuestionSameAnswer(a: Option<string>, b: Option<string>, data: DemoData, fmt: NumberFormats, fold: char -> char)
    requires a.GetOr("") == b.GetOr("")
    ensures AnswerWithDemoRules(a, data, fmt, fold) == AnswerWithDemoRules(b, data, fmt, fold)
  {
    assert Normalize(a, fold) == Normalize(b, fold);
  }

  /**
   * `ask_assistant`: the demo rules answer in demo mode or when the external
   * engine does not; since that engine never answers, they always do.
   */
  function AskAssistant(question: Option<string>, demoMode: bool, data: DemoData, fmt: NumberFormats, fold: char -> char)
    : (r: AssistantResponse)
    ensures r == AnswerWithDemoRules(question, data, fmt, fold)
  {
    var text := question.GetOr("");
    SameQuestionSameAnswer(Some(text), question, data, fmt, fold);
    var external := ExternalAnswer(text);
    match external
    case Some(answer) => if demoMode then AnswerWithDemoRules(Some(text), data, fmt, fold) else answer
    case None => AnswerWithDemoRules(Some(text), data, fmt, fold)
  }

  /** A missing or empty question gets the fallback answer. */
  lemma EmptyQuestionFallsBack(question: Option<string>, data: DemoData, fmt: NumberFormats, fold: char -> char)
    requires question == None || question == Some("")
    ensures AnswerWithDemoRules(question, data, fmt, fold) == AssistantResponse(FallbackAnswer, None)
  {
    var q := Normalize(question, fold);
    assert q == [];
    EmptyContainsNothing("portföy");
    EmptyContainsNothing("pendorya");
    EmptyContainsNothing("divan");
    EmptyContainsNothing("adana otel");
    EmptyContainsNothing("adana oteli");
    EmptyContainsNothing("kaç şehir");
    EmptyContainsNothing("kaç il");
    EmptyContainsNothing("şehir sayısı");
    EmptyContainsNothing("öz kaynak");
    EmptyContainsNothing("özkaynak");
    EmptyContainsNothing("equity");
  }

  /** The "adana oteli" test adds nothing: every such question also contains "adana otel". */
  lemma DivanTestSimplifies(q: string)
    ensures Matches(DivanHotel, q) <==> Contains(q, "divan") || Contains(q, "adana otel")
  {
    if Contains(q, "adana oteli") {
      assert "adana oteli" == "adana otel" + "i";
      ContainsPrefix(q, "adana otel", "i");
    }
  }

  /** A question matching both the portfolio-total and the Pendorya test is a portfolio-total question. */
  lemma PortfolioRuleComesFirst(q: string)
    requires Matches(PortfolioTotal, q) && Matches(Pendorya, q)
    ensures Classify(q) == PortfolioTotal
  {
  }

  /** For example, a question about Pendorya and the portfolio value. */
  lemma PortfolioRuleExample()
    ensures Classify("pendorya portföy değeri") == PortfolioTotal
  {
    var q := "pendorya portföy değeri";
    assert OccursAt(q, "portföy", 9);
    assert OccursAt(q, "değer", 17);
  }

  /** A joined list starts with its first piece. */
  lemma {:induction false} JoinStartsWithFirst(xs: seq<string>, sep: string)
    requires xs != [] && xs[0] != []
    ensures Join(xs, sep) != [] && Join(xs, sep)[0] == xs[0][0]
  {
  }

  /** The default text appears exactly when no field is truthy. */
  lemma DefaultDetailsIffNothing(p: PendoryaRow, fmt: NumberFormats)
    ensures PendoryaDetails(p, fmt) == DefaultDetails
      <==> !Truthy(p.valuation) && !Truthy(p.grossAreaSqm) && !Truthy(p.glaSqm)
  {
    var parts := DetailParts(p, fmt);
    if parts != [] {
      JoinStartsWithFirst(parts, ", ");
      assert parts[0][0] in "ebk" by {
        assert parts[0] in {ValuationText(p.valuation.GetOr(0.0), fmt), GrossAreaText(p.grossAreaSqm.GetOr(0.0), fmt),
          LettableAreaText(p.glaSqm.GetOr(0.0), fmt)};
      }
      assert DefaultDetails[0] == 'd';
    }
  }
}
