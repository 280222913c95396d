/** What the query stage prints into the trace pipe, and the line the parent makes of it. */
module QueryStage {
  import opened Wrappers
  import opened Json
  import opened Numerals

  /** A measured time, as `std::to_string` prints a double: six decimals, or a word. */
  datatype Elapsed = Finite(negative: bool, micros: nat) | Infinite(negative: bool) | NotANumber(negative: bool)

  datatype QueryResult = QueryResult(trace: string, elapsed: Elapsed, error: string, queryId: string, reqId: string)

  // ---- numbers ---------------------------------------------------------------

  function Digit(d: nat): char
    requires d < 10
  {
    "0123456789"[d]
  }

  function Integer(n: int): string {
    if n < 0 then "-" + Digits(-n) else Digits(n)
  }

  function SixDigits(n: nat): (t: string)
    requires n < 1000000
    ensures |t| == 6 && forall i | 0 <= i < 6 :: IsDigit(t[i])
  {
    [Digit(n / 100000), Digit(n / 10000 % 10), Digit(n / 1000 % 10), Digit(n / 100 % 10), Digit(n / 10 % 10), Digit(n % 10)]
  }

  function ElapsedText(e: Elapsed): string {
    (if e.negative then "-" else "") +
    match e
    case Finite(_, micros) => Digits(micros / 1000000) + "." + SixDigits(micros % 1000000)
    case Infinite(_) => "inf"
    case NotANumber(_) => "nan"
  }

  lemma DecimalDigits(n: nat)
    ensures Digits(n) != "" && (forall i | 0 <= i < |Digits(n)| :: IsDigit(Digits(n)[i]))
    ensures Digits(n)[0] == '0' ==> n == 0 && |Digits(n)| == 1
  {
    DigitsAreDigits(n);
    NoLeadingZero(n);
  }

  lemma {:induction false} DigitSpanOf(t: string, rest: string)
    requires forall i | 0 <= i < |t| :: IsDigit(t[i])
    requires rest == "" || !IsDigit(rest[0])
    ensures DigitSpan(t + rest) == |t|
  {
    if t == "" {
      assert t + rest == rest;
    } else {
      assert (t + rest)[1..] == t[1..] + rest;
      DigitSpanOf(t[1..], rest);
    }
  }

  lemma DecimalIsUnsigned(n: nat, fraction: string)
    requires fraction == "" || fraction[0] == '.'
    requires IsFraction(fraction)
    ensures IsUnsigned(Digits(n) + fraction) && Digits(n)[0] != '-'
  {
    DecimalDigits(n);
    DigitSpanOf(Digits(n), fraction);
    assert (Digits(n) + fraction)[|Digits(n)|..] == fraction;
  }

  lemma IntegerIsNumber(n: int)
    ensures IsNumber(Integer(n))
  {
    var m: nat := if n < 0 then -n else n;
    DecimalIsUnsigned(m, "");
    assert Digits(m) + "" == Digits(m);
  }

  lemma FractionOfDigits(d: string)
    requires d != "" && forall i | 0 <= i < |d| :: IsDigit(d[i])
    ensures IsFraction("." + d)
  {
    DigitSpanOf(d, "");
    assert d + "" == d && ("." + d)[1..] == d;
    assert ("." + d)[1 + |d|..] == "";
  }

  lemma WithFractionIsNumber(whole: nat, digits: string)
    requires digits != "" && forall i | 0 <= i < |digits| :: IsDigit(digits[i])
    ensures IsNumber(Digits(whole) + ("." + digits)) && IsNumber("-" + (Digits(whole) + ("." + digits)))
  {
    FractionOfDigits(digits);
    DecimalIsUnsigned(whole, "." + digits);
  }

  lemma FiniteIsNumber(e: Elapsed)
    requires e.Finite?
    ensures IsNumber(ElapsedText(e))
  {
    var whole, digits := e.micros / 1000000, SixDigits(e.micros % 1000000);
    WithFractionIsNumber(whole, digits);
    Regroup3(Digits(whole), ".", digits);
    assert "" + (Digits(whole) + ("." + digits)) == Digits(whole) + ("." + digits);
  }

  lemma DigitDenotes(d: nat)
    requires d < 10
    ensures DigitValue(Digit(d)) == d
  {
  }

  lemma SixDigitsSum(n: nat)
    requires n < 1000000
    ensures n / 10000 == 10 * (n / 100000) + n / 10000 % 10
    ensures n / 1000 == 10 * (n / 10000) + n / 1000 % 10
    ensures n / 100 == 10 * (n / 1000) + n / 100 % 10
    ensures n / 10 == 10 * (n / 100) + n / 10 % 10
    ensures n == 10 * (n / 10) + n % 10
  {
  }

  lemma AppendDigit(t: string, value: nat, d: nat, next: nat)
    requires d < 10 && Numeral(t) == value && next == 10 * value + d
    ensures Numeral(t + [Digit(d)]) == next
  {
    NumeralSnoc(t, Digit(d));
    DigitDenotes(d);
  }

  lemma SixDigitsDenote(n: nat)
    requires n < 1000000
    ensures Numeral(SixDigits(n)) == n
  {
    SixDigitsSum(n);
    var t1 := "" + [Digit(n / 100000)];
    var t2 := t1 + [Digit(n / 10000 % 10)];
    var t3 := t2 + [Digit(n / 1000 % 10)];
    var t4 := t3 + [Digit(n / 100 % 10)];
    var t5 := t4 + [Digit(n / 10 % 10)];
    AppendDigit("", 0, n / 100000, n / 100000);
    AppendDigit(t1, n / 100000, n / 10000 % 10, n / 10000);
    AppendDigit(t2, n / 10000, n / 1000 % 10, n / 1000);
    AppendDigit(t3, n / 1000, n / 100 % 10, n / 100);
    AppendDigit(t4, n / 100, n / 10 % 10, n / 10);
    AppendDigit(t5, n / 10, n % 10, n);
    assert SixDigits(n) == t5 + [Digit(n % 10)];
  }

  lemma MicrosApart(micros: nat)
    ensures (micros / 1000000) as real + (micros % 1000000) as real / 1000000.0 == micros as real / 1000000.0
  {
    assert micros == micros / 1000000 * 1000000 + micros % 1000000;
  }

  lemma MicrosDenote(micros: nat)
    ensures UnsignedValue(Digits(micros / 1000000) + ("." + SixDigits(micros % 1000000))) == micros as real / 1000000.0
  {
    DecimalDigits(micros / 1000000);
    DigitsDenote(micros / 1000000);
    SixDigitsDenote(micros % 1000000);
    WithFractionDenotes(Digits(micros / 1000000), SixDigits(micros % 1000000));
    MillionthsValue(SixDigits(micros % 1000000), micros % 1000000);
    MicrosApart(micros);
  }

  lemma MillionthsValue(digits: string, n: nat)
    requires |digits| == 6 && Numeral(digits) == n
    ensures FractionValue(digits) == n as real / 1000000.0
  {
    assert Power10(6) == 1000000;
  }

  lemma SignDenotes(negative: bool, t: string)
    requires t != "" && t[0] != '-'
    ensures DecimalValue((if negative then "-" else "") + t) == if negative then -UnsignedValue(t) else UnsignedValue(t)
  {
    assert "" + t == t && ("-" + t)[1..] == t;
  }

  /** The text printed for a finite time denotes that time. */
  lemma ElapsedDenotes(e: Elapsed)
    requires e.Finite?
    ensures DecimalValue(ElapsedText(e)) == if e.negative then -(e.micros as real / 1000000.0) else e.micros as real / 1000000.0
  {
    var whole, digits := Digits(e.micros / 1000000), SixDigits(e.micros % 1000000);
    DecimalDigits(e.micros / 1000000);
    MicrosDenote(e.micros);
    SignDenotes(e.negative, whole + ("." + digits));
    Regroup3(whole, ".", digits);
  }

  /** The text printed for an integer denotes it. */
  lemma IntegerDenotes(n: int)
    ensures DecimalValue(Integer(n)) == n as real
  {
    var m: nat := if n < 0 then -n else n;
    DecimalDigits(m);
    DigitsDenote(m);
    WholeDenotes(Digits(m));
    assert ("-" + Digits(m))[1..] == Digits(m);
  }

  // ---- the payload -----------------------------------------------------------------

  // Member names.
  const TRACE := "trace"
  const ELAPSED_MS := "elapsed_ms"
  const ERROR := "error"
  const QUERY_ID := "query_id"
  const REQ_ID := "req_id"
  const QUERY_RESULTS := "query_results"
  const STAGE_ERROR := "stage_error"

  // The literals the printer appends.
  const PAYLOAD_OPEN := "{\"query_results\":["
  const PAYLOAD_MIDDLE := "],\"stage_error\":\""
  const CLOSE := "\"}"
  const RECORD_OPEN := "{\"trace\":\""
  const BEFORE_ELAPSED := "\",\"elapsed_ms\":"
  const BEFORE_ERROR := ",\"error\":\""
  const BEFORE_QUERY_ID := "\",\"query_id\":\""
  const BEFORE_REQ_ID := "\",\"req_id\":\""

  function ResultValue(r: QueryResult): Json {
    Obj([Member(TRACE, Str(r.trace)), Member(ELAPSED_MS, Num(ElapsedText(r.elapsed))), Member(ERROR, Str(r.error)),
         Member(QUERY_ID, Str(r.queryId)), Member(REQ_ID, Str(r.reqId))])
  }

  function ResultValues(rs: seq<QueryResult>): (xs: seq<Json>)
    ensures |xs| == |rs| && forall i | 0 <= i < |rs| :: xs[i] == ResultValue(rs[i])
  {
    seq(|rs|, i requires 0 <= i < |rs| => ResultValue(rs[i]))
  }

  /** The members a payload carries. */
  function PayloadMembers(rs: seq<QueryResult>, stageError: string): seq<Member> {
    [Member(QUERY_RESULTS, Arr(ResultValues(rs))), Member(STAGE_ERROR, Str(stageError))]
  }

  /** The text of one record, read from its first character on. */
  function RecordText(trace: string, elapsed: string, error: string, queryId: string, reqId: string): string {
    RECORD_OPEN + (trace + (BEFORE_ELAPSED + (elapsed + (BEFORE_ERROR + (error +
    (BEFORE_QUERY_ID + (queryId + (BEFORE_REQ_ID + (reqId + CLOSE)))))))))
  }

  /** Text the printer leaves as it is. */
  ghost predicate Plain(s: string) {
    forall i | 0 <= i < |s| :: s[i] >= ' ' && s[i] != '\"' && s[i] != '\\'
  }

  lemma {:induction false} PlainName(s: string)
    requires Plain(s)
    ensures Escape(s) == s
  {
    if s != "" {
      PlainName(s[1..]);
    }
  }

  /** What precedes a string value under a name, and a number value. */
  function StrOpen(name: string): string {
    "\"" + name + "\":\""
  }

  function NumOpen(name: string): string {
    "\"" + name + "\":"
  }

  lemma NamesPlain()
    ensures Plain(TRACE) && Plain(ELAPSED_MS) && Plain(ERROR) && Plain(QUERY_ID) && Plain(REQ_ID)
    ensures Plain(QUERY_RESULTS) && Plain(STAGE_ERROR)
  {
  }

  lemma MemberOpen(name: string, j: Json)
    requires Plain(name)
    ensures Quoted(name) + ":" + Render(j) == NumOpen(name) + Render(j)
  {
    PlainName(name);
  }

  lemma MembersText(ms: seq<Member>)
    requires |ms| > 1
    ensures RenderMembers(ms) == Quoted(ms[0].name) + ":" + Render(ms[0].value) + "," + RenderMembers(ms[1..])
  {
  }

  /** A member followed by more members, as the printer lays it out up to the closing brace. */
  lemma FirstOther(ms: seq<Member>, name: string, j: Json)
    requires |ms| > 1 && ms[0] == Member(name, j) && Plain(name)
    ensures RenderMembers(ms) + "}" == NumOpen(name) + (Render(j) + ("," + (RenderMembers(ms[1..]) + "}")))
  {
    MembersText(ms);
    MemberOpen(name, j);
    var more := RenderMembers(ms[1..]);
    Regroup5(NumOpen(name), Render(j), ",", more, "}");
    Regroup3(",", more, "}");
  }

  lemma StringOpen(name: string, e: string, w: string)
    ensures NumOpen(name) + (("\"" + e + "\"") + ("," + w)) == StrOpen(name) + (e + ("\"," + w))
    ensures NumOpen(name) + ("\"" + e + CLOSE) == StrOpen(name) + (e + CLOSE)
  {
    assert NumOpen(name) + "\"" == StrOpen(name);
    Regroup4("\"", e, "\"", "," + w);
    Regroup3("\"", ",", w);
    Regroup3(NumOpen(name), "\"", e + ("\"," + w));
    Regroup3("\"", e, CLOSE);
    Regroup3(NumOpen(name), "\"", e + CLOSE);
  }

  lemma FirstString(ms: seq<Member>, name: string, s: string)
    requires |ms| > 1 && ms[0] == Member(name, Str(s)) && Plain(name)
    ensures RenderMembers(ms) + "}" == StrOpen(name) + (Escape(s) + ("\"," + (RenderMembers(ms[1..]) + "}")))
  {
    FirstOther(ms, name, Str(s));
    StringOpen(name, Escape(s), RenderMembers(ms[1..]) + "}");
  }

  lemma OnlyString(ms: seq<Member>, name: string, s: string)
    requires ms == [Member(name, Str(s))] && Plain(name)
    ensures RenderMembers(ms) + "}" == StrOpen(name) + (Escape(s) + CLOSE)
  {
    MemberOpen(name, Str(s));
    StringOpen(name, Escape(s), "");
    Regroup3(NumOpen(name), "\"" + Escape(s) + "\"", "}");
    Regroup3("\"" + Escape(s), "\"", "}");
  }

  /** The members of a record, up to the closing brace. */
  lemma RecordMembers(r: QueryResult)
    ensures RenderMembers(ResultValue(r).members) + "}" ==
      StrOpen(TRACE) + (Escape(r.trace) + ("\"," + (NumOpen(ELAPSED_MS) + (ElapsedText(r.elapsed) + ("," +
      (StrOpen(ERROR) + (Escape(r.error) + ("\"," + (StrOpen(QUERY_ID) + (Escape(r.queryId) + ("\"," +
      (StrOpen(REQ_ID) + (Escape(r.reqId) + CLOSE)))))))))))))
  {
    NamesPlain();
    var ms := ResultValue(r).members;
    var ms1, ms2, ms3, ms4 := ms[1..], ms[2..], ms[3..], ms[4..];
    assert ms1[1..] == ms2 && ms2[1..] == ms3 && ms3[1..] == ms4;
    FirstString(ms, TRACE, r.trace);
    FirstOther(ms1, ELAPSED_MS, Num(ElapsedText(r.elapsed)));
    FirstString(ms2, ERROR, r.error);
    FirstString(ms3, QUERY_ID, r.queryId);
    OnlyString(ms4, REQ_ID, r.reqId);
  }

  /** The printer's literals, taken apart at the member boundaries. */
  lemma RecordLiterals()
    ensures "{" + StrOpen(TRACE) == RECORD_OPEN
    ensures "\"," + NumOpen(ELAPSED_MS) == BEFORE_ELAPSED
    ensures "," + StrOpen(ERROR) == BEFORE_ERROR
    ensures "\"," + StrOpen(QUERY_ID) == BEFORE_QUERY_ID
    ensures "\"," + StrOpen(REQ_ID) == BEFORE_REQ_ID
  {
  }

  /** The record the stage prints is the JSON object of its fields. */
  lemma RecordIsRendered(r: QueryResult)
    ensures RecordText(Escape(r.trace), ElapsedText(r.elapsed), Escape(r.error), Escape(r.queryId), Escape(r.reqId))
         == Render(ResultValue(r))
  {
    RecordMembers(r);
    RecordLiterals();
    var w5 := Escape(r.reqId) + CLOSE;
    var w4 := Escape(r.queryId) + (BEFORE_REQ_ID + w5);
    var w3 := Escape(r.error) + (BEFORE_QUERY_ID + w4);
    var w2 := ElapsedText(r.elapsed) + (BEFORE_ERROR + w3);
    Regroup3("\",", StrOpen(REQ_ID), w5);
    Regroup3("\",", StrOpen(QUERY_ID), w4);
    Regroup3(",", StrOpen(ERROR), w3);
    Regroup3("\",", NumOpen(ELAPSED_MS), w2);
    Regroup3("{", StrOpen(TRACE), Escape(r.trace) + (BEFORE_ELAPSED + w2));
    Regroup3("{", RenderMembers(ResultValue(r).members), "}");
  }

  lemma PayloadLiterals()
    ensures "{" + (NumOpen(QUERY_RESULTS) + "[") == PAYLOAD_OPEN
    ensures "]" + ("," + StrOpen(STAGE_ERROR)) == PAYLOAD_MIDDLE
  {
  }

  lemma PayloadGlued(items: string, e: string)
    ensures "{" + (NumOpen(QUERY_RESULTS) + (("[" + items + "]") + ("," + (StrOpen(STAGE_ERROR) + (e + CLOSE)))))
         == PAYLOAD_OPEN + items + PAYLOAD_MIDDLE + e + CLOSE
  {
    PayloadLiterals();
    var w := e + CLOSE;
    Regroup3(",", StrOpen(STAGE_ERROR), w);
    Regroup4("[", items, "]", "," + (StrOpen(STAGE_ERROR) + w));
    Regroup3("]", "," + StrOpen(STAGE_ERROR), w);
    Regroup3(NumOpen(QUERY_RESULTS), "[", items + (PAYLOAD_MIDDLE + w));
    Regroup3("{", NumOpen(QUERY_RESULTS) + "[", items + (PAYLOAD_MIDDLE + w));
    Regroup3(PAYLOAD_OPEN + items + PAYLOAD_MIDDLE, e, CLOSE);
    Regroup4(PAYLOAD_OPEN, items, PAYLOAD_MIDDLE, w);
  }

  lemma TwoMembersText(ms: seq<Member>, first: string, j: Json, second: string, s: string)
    requires ms == [Member(first, j), Member(second, Str(s))] && Plain(first) && Plain(second)
    ensures RenderMembers(ms) + "}" == NumOpen(first) + (Render(j) + ("," + (StrOpen(second) + (Escape(s) + CLOSE))))
  {
    assert ms[1..] == [Member(second, Str(s))];
    OnlyString(ms[1..], second, s);
    FirstOther(ms, first, j);
  }

  lemma ListAndString(ms: seq<Member>, first: string, xs: seq<Json>, second: string, s: string)
    requires ms == [Member(first, Arr(xs)), Member(second, Str(s))] && Plain(first) && Plain(second)
    ensures Render(Obj(ms))
         == "{" + (NumOpen(first) + (("[" + RenderItems(xs) + "]") + ("," + (StrOpen(second) + (Escape(s) + CLOSE)))))
  {
    TwoMembersText(ms, first, Arr(xs), second, s);
    Regroup3("{", RenderMembers(ms), "}");
  }

  /** Appends one record to the payload. */
  method AppendRecord(payload: string, r: QueryResult) returns (grown: string)
    ensures grown == payload + Render(ResultValue(r))
  {
    grown := payload + RECORD_OPEN;
    var trace := JsonEscape(r.trace);
    grown := grown + trace;
    grown := grown + BEFORE_ELAPSED;
    grown := grown + ElapsedText(r.elapsed);
    grown := grown + BEFORE_ERROR;
    var error := JsonEscape(r.error);
    grown := grown + error;
    grown := grown + BEFORE_QUERY_ID;
    var queryId := JsonEscape(r.queryId);
    grown := grown + queryId;
    grown := grown + BEFORE_REQ_ID;
    var reqId := JsonEscape(r.reqId);
    grown := grown + reqId;
    grown := grown + CLOSE;
    LeftToRight(payload, trace, ElapsedText(r.elapsed), error, queryId, reqId);
    RecordIsRendered(r);
  }

  lemma LeftToRight(payload: string, trace: string, elapsed: string, error: string, queryId: string, reqId: string)
    ensures payload + RECORD_OPEN + trace + BEFORE_ELAPSED + elapsed + BEFORE_ERROR + error
      + BEFORE_QUERY_ID + queryId + BEFORE_REQ_ID + reqId + CLOSE
      == payload + RecordText(trace, elapsed, error, queryId, reqId)
  {
    var p1 := payload + RECORD_OPEN;
    var p2 := p1 + trace + BEFORE_ELAPSED;
    var p3 := p2 + elapsed + BEFORE_ERROR;
    var p4 := p3 + error + BEFORE_QUERY_ID;
    var p5 := p4 + queryId + BEFORE_REQ_ID;
    var s5 := reqId + CLOSE;
    var s4 := queryId + (BEFORE_REQ_ID + s5);
    var s3 := error + (BEFORE_QUERY_ID + s4);
    var s2 := elapsed + (BEFORE_ERROR + s3);
    var s1 := trace + (BEFORE_ELAPSED + s2);
    Regroup3(p5, reqId, CLOSE);
    Regroup4(p4, queryId, BEFORE_REQ_ID, s5);
    Regroup4(p3, error, BEFORE_QUERY_ID, s4);
    Regroup4(p2, elapsed, BEFORE_ERROR, s3);
    Regroup4(p1, trace, BEFORE_ELAPSED, s2);
    Regroup3(payload, RECORD_OPEN, s1);
  }

  lemma RecordAppended(opening: string, results: seq<QueryResult>, i: nat, payload: string)
    requires i < |results| && payload == opening + RenderItems(ResultValues(results[..i]))
    ensures (if i > 0 then payload + "," else payload) + Render(ResultValue(results[i]))
         == opening + RenderItems(ResultValues(results[..i + 1]))
  {
    var items, comma, next := RenderItems(ResultValues(results[..i])), if i > 0 then "," else "", Render(ResultValue(results[i]));
    assert payload + "" == payload;
    RenderItemsAppend(ResultValues(results[..i]), ResultValue(results[i]));
    assert ResultValues(results[..i]) + [ResultValue(results[i])] == ResultValues(results[..i + 1]);
    Regroup4(opening, items, comma, next);
    Regroup3(items, comma, next);
  }

  /** The query stage's payload: the JSON object of all records and the stage error. */
  method PrintPayload(results: seq<QueryResult>, stageError: string) returns (payload: string)
    ensures payload == Render(Obj(PayloadMembers(results, stageError)))
  {
    payload := PAYLOAD_OPEN;
    for i := 0 to |results|
      invariant payload == PAYLOAD_OPEN + RenderItems(ResultValues(results[..i]))
    {
      ghost var before := payload;
      if i > 0 {
        payload := payload + ",";
      }
      payload := AppendRecord(payload, results[i]);
      RecordAppended(PAYLOAD_OPEN, results, i, before);
    }
    assert results[..|results|] == results;
    payload := payload + PAYLOAD_MIDDLE;
    var error := JsonEscape(stageError);
    payload := payload + error;
    payload := payload + CLOSE;
    PayloadRendered(results, stageError);
  }

  lemma PayloadRendered(rs: seq<QueryResult>, stageError: string)
    ensures Render(Obj(PayloadMembers(rs, stageError)))
         == PAYLOAD_OPEN + RenderItems(ResultValues(rs)) + PAYLOAD_MIDDLE + Escape(stageError) + CLOSE
  {
    NamesPlain();
    ListAndString(PayloadMembers(rs, stageError), QUERY_RESULTS, ResultValues(rs), STAGE_ERROR, stageError);
    PayloadGlued(RenderItems(ResultValues(rs)), Escape(stageError));
  }

  // ---- reading the payload back ------------------------------------------------------

  predicate AllFinite(rs: seq<QueryResult>) {
    forall i | 0 <= i < |rs| :: rs[i].elapsed.Finite?
  }

  lemma ResultNumbersValid(r: QueryResult)
    requires r.elapsed.Finite?
    ensures NumbersValid(ResultValue(r))
  {
    FiniteIsNumber(r.elapsed);
  }

  lemma PayloadNumbersValid(rs: seq<QueryResult>, stageError: string)
    requires AllFinite(rs)
    ensures forall m | m in PayloadMembers(rs, stageError) :: NumbersValid(m.value)
  {
    forall x | x in ResultValues(rs)
      ensures NumbersValid(x)
    {
      var i :| 0 <= i < |rs| && ResultValues(rs)[i] == x;
      ResultNumbersValid(rs[i]);
    }
  }

  lemma BadNumberUnread(e: Elapsed, rest: string)
    requires !e.Finite?
    ensures ReadValue(ElapsedText(e) + rest).None?
  {
    var t := ElapsedText(e) + rest;
    if e.negative {
      assert t[0] == '-' && (t[1] == 'i' || t[1] == 'n');
      assert !NumberChar(t[1..][0]) && NumberSpan(t[1..]) == 0;
      assert t[..NumberSpan(t)] == "-";
      assert DigitSpan("-"[1..]) == 0;
    } else {
      assert t[0] == 'i' || (t[0] == 'n' && t[1] == 'a');
      assert "null"[1] == 'u';
    }
  }

  lemma MemberUnread(name: string, value: string)
    requires ReadValue(value).None?
    ensures ReadMembers(Quoted(name) + (":" + value)).None?
  {
    ReadName(name, ":" + value);
    assert (":" + value)[1..] == value;
  }

  lemma LaterMemberUnread(name: string, value: string, x: Json, more: string)
    requires ReadValue(value) == Some(Read(x, "," + more)) && ReadMembers(more).None?
    ensures ReadMembers(Quoted(name) + (":" + value)).None?
  {
    ReadName(name, ":" + value);
    assert (":" + value)[1..] == value && ("," + more)[1..] == more;
  }

  /** Members read in vain behind one that is read. */
  lemma LaterMembersUnread(ms: seq<Member>, rest: string)
    requires |ms| > 1 && NumbersValid(ms[0].value) && ReadMembers(RenderMembers(ms[1..]) + "}" + rest).None?
    ensures ReadMembers(RenderMembers(ms) + "}" + rest).None?
  {
    var more, x := RenderMembers(ms[1..]) + "}" + rest, ms[0].value;
    NextMemberText(ms, rest);
    ReadUndoesRender(x, "," + more);
    LaterMemberUnread(ms[0].name, Render(x) + ("," + more), x, more);
  }

  lemma SecondMemberUnread(ms: seq<Member>, rest: string, tail: string)
    requires |ms| > 2 && NumbersValid(ms[0].value) && tail == RenderMembers(ms[2..]) + "}" + rest
    requires ReadValue(Render(ms[1].value) + ("," + tail)).None?
    ensures ReadMembers(RenderMembers(ms) + "}" + rest).None?
  {
    assert ms[1..][0] == ms[1] && ms[1..][1..] == ms[2..];
    NextMemberText(ms[1..], rest);
    MemberUnread(ms[1].name, Render(ms[1].value) + ("," + tail));
    LaterMembersUnread(ms, rest);
  }

  /** A record whose time is no number cannot be read. */
  lemma BadRecordUnread(r: QueryResult, rest: string)
    requires !r.elapsed.Finite?
    ensures ReadValue(Render(ResultValue(r)) + rest).None?
  {
    var ms := ResultValue(r).members;
    var tail := RenderMembers(ms[2..]) + "}" + rest;
    BadNumberUnread(r.elapsed, "," + tail);
    SecondMemberUnread(ms, rest, tail);
    ObjectUnread(ms, rest);
  }

  lemma ObjectUnread(ms: seq<Member>, rest: string)
    requires ms != [] && ReadMembers(RenderMembers(ms) + "}" + rest).None?
    ensures ReadValue(Render(Obj(ms)) + rest).None?
  {
    var body := RenderMembers(ms) + "}" + rest;
    assert body[0] == RenderMembers(ms)[0] == '\"';
    assert ("{" + RenderMembers(ms) + "}") + rest == "{" + body;
    assert ("{" + body)[1..] == body;
  }

  lemma LaterItemUnread(t: string, x: Json, more: string)
    requires ReadValue(t) == Some(Read(x, "," + more)) && ReadItems(more).None?
    ensures ReadItems(t).None?
  {
    assert ("," + more)[1..] == more;
  }

  lemma FirstRecordUnread(rs: seq<QueryResult>, rest: string)
    requires rs != [] && !rs[0].elapsed.Finite?
    ensures ReadItems(RenderItems(ResultValues(rs)) + "]" + rest).None?
  {
    var xs := ResultValues(rs);
    if |rs| == 1 {
      assert xs == [ResultValue(rs[0])];
      LastItemText(xs[0], rest);
      BadRecordUnread(rs[0], "]" + rest);
    } else {
      NextItemText(xs, rest);
      BadRecordUnread(rs[0], "," + (RenderItems(xs[1..]) + "]" + rest));
    }
  }

  /** Items after a good record. */
  lemma LaterRecordUnread(r: QueryResult, more: string)
    requires r.elapsed.Finite? && ReadItems(more).None?
    ensures ReadItems(Render(ResultValue(r)) + ("," + more)).None?
  {
    ResultNumbersValid(r);
    ReadUndoesRender(ResultValue(r), "," + more);
    LaterItemUnread(Render(ResultValue(r)) + ("," + more), ResultValue(r), more);
  }

  /** One unreadable record spoils the whole list. */
  lemma {:induction false} RecordsUnread(rs: seq<QueryResult>, rest: string)
    requires !AllFinite(rs)
    ensures ReadItems(RenderItems(ResultValues(rs)) + "]" + rest).None?
  {
    if !rs[0].elapsed.Finite? {
      FirstRecordUnread(rs, rest);
    } else {
      var xs := ResultValues(rs);
      assert xs[0] == ResultValue(rs[0]) && xs[1..] == ResultValues(rs[1..]);
      RecordsUnread(rs[1..], rest);
      NextItemText(xs, rest);
      LaterRecordUnread(rs[0], RenderItems(xs[1..]) + "]" + rest);
    }
  }

  lemma ArrayUnread(xs: seq<Json>, rest: string)
    requires xs != [] && xs[0].Obj? && ReadItems(RenderItems(xs) + "]" + rest).None?
    ensures ReadValue(Render(Arr(xs)) + rest).None?
  {
    var body := RenderItems(xs) + "]" + rest;
    assert body[0] == RenderItems(xs)[0] == Render(xs[0])[0] == '{';
    assert ("[" + RenderItems(xs) + "]") + rest == "[" + body;
    assert ("[" + body)[1..] == body;
  }

  lemma PayloadUnread(rs: seq<QueryResult>, stageError: string)
    requires !AllFinite(rs)
    ensures ReadMembers(RenderMembers(PayloadMembers(rs, stageError)) + "}" + "").None?
  {
    var ms := PayloadMembers(rs, stageError);
    var tail := RenderMembers(ms[1..]) + "}" + "";
    NextMemberText(ms, "");
    RecordsUnread(rs, "," + tail);
    ArrayUnread(ResultValues(rs), "," + tail);
    MemberUnread(QUERY_RESULTS, Render(ms[0].value) + ("," + tail));
  }

  lemma DocumentUnread(ms: seq<Member>)
    requires ms != [] && ReadMembers(RenderMembers(ms) + "}" + "").None?
    ensures ReadDocument(Render(Obj(ms))).None?
  {
    ObjectUnread(ms, "");
    assert Render(Obj(ms)) + "" == Render(Obj(ms));
  }

  /** The payload is a JSON text carrying every field, exactly when every time is a finite number. */
  lemma PayloadReadable(rs: seq<QueryResult>, stageError: string)
    ensures AllFinite(rs) ==>
      ReadDocument(Render(Obj(PayloadMembers(rs, stageError)))) == Some(Obj(PayloadMembers(rs, stageError)))
    ensures !AllFinite(rs) ==> ReadDocument(Render(Obj(PayloadMembers(rs, stageError)))).None?
  {
    var ms := PayloadMembers(rs, stageError);
    if AllFinite(rs) {
      PayloadNumbersValid(rs, stageError);
      DocumentRoundTrip(Obj(ms));
    } else {
      PayloadUnread(rs, stageError);
      DocumentUnread(ms);
    }
  }

  // ---- the response line -----------------------------------------------------------------

  const STAGE_THREW: int := 70
  const CHILD_START_FAILED: int := 71

  const BATCH_ID := "batch_id"
  const EXIT_CODE := "exit_code"
  const SIGNAL := "signal"
  const RESPONSE_OPEN := "{\"batch_id\":"
  const BEFORE_EXIT_CODE := ",\"exit_code\":"
  const BEFORE_SIGNAL := ",\"signal\":"
  const NO_RESULTS := ",\"query_results\":[],\"stage_error\":\""

  function HeaderMembers(batchId: nat, exitCode: int, signal: int): seq<Member> {
    [Member(BATCH_ID, Num(Integer(batchId))), Member(EXIT_CODE, Num(Integer(exitCode))), Member(SIGNAL, Num(Integer(signal)))]
  }

  /** What is reported in place of a trace that did not come. */
  function FailureMessage(exitCode: int, signal: int, signalName: string): string {
    if signal != 0 then "query child killed by signal " + Integer(signal) + " (" + signalName + ")"
    else if exitCode == STAGE_THREW then
      "a pipeline stage threw a C++ exception (see stderr for the exception message)"
    else if exitCode == CHILD_START_FAILED then
      "a pipeline stage failed to start its child process (see stderr for details)"
    else ""
  }

  /** A killed batch is reported with its signal's number and name; otherwise only a stage that threw and a
      child that did not start are. */
  lemma FailureReported(exitCode: int, signal: int, signalName: string)
    ensures
      var t := FailureMessage(exitCode, signal, signalName);
      if signal != 0 then exists m: nat, n: nat | m <= n <= |t| :: NumberThen(t, m, n, signal, " (" + signalName + ")")
      else t != "" <==> exitCode == STAGE_THREW || exitCode == CHILD_START_FAILED
  {
    if signal != 0 {
      var t, opening, number := FailureMessage(exitCode, signal, signalName), "query child killed by signal ", Integer(signal);
      var closing := " (" + signalName + ")";
      IntegerDenotes(signal);
      FailureGlued(opening + number, signalName);
      assert t == opening + number + closing;
      assert NumberThen(t, |opening|, |opening| + |number|, signal, closing) by { MiddleAndEnd(opening, number, closing); }
    }
  }

  /** From m to n the text is a numeral for the number, and then ends as given. */
  predicate NumberThen(t: string, m: nat, n: nat, number: int, closing: string)
    requires m <= n <= |t|
  {
    DecimalValue(t[m..n]) == number as real && t[n..] == closing
  }

  lemma FailureGlued(opening: string, name: string)
    ensures opening + " (" + name + ")" == opening + (" (" + name + ")")
  {
    Regroup4(opening, " (", name, ")");
    Regroup3(" (", name, ")");
  }

  lemma MiddleAndEnd(a: string, b: string, c: string)
    ensures (a + b + c)[|a|..|a| + |b|] == b && (a + b + c)[|a| + |b|..] == c
  {
  }

  predicate Braced(t: string) {
    |t| >= 2 && t[0] == '{' && t[|t| - 1] == '}'
  }

  function HeaderLine(batchId: nat, exitCode: int, signal: int): string {
    RESPONSE_OPEN + Integer(batchId) + BEFORE_EXIT_CODE + Integer(exitCode) + BEFORE_SIGNAL + Integer(signal)
  }

  lemma ResponseLiterals()
    ensures "{" + NumOpen(BATCH_ID) == RESPONSE_OPEN
    ensures "," + NumOpen(EXIT_CODE) == BEFORE_EXIT_CODE
    ensures "," + NumOpen(SIGNAL) == BEFORE_SIGNAL
    ensures Plain(BATCH_ID) && Plain(EXIT_CODE) && Plain(SIGNAL)
  {
  }

  lemma NoResultsLiteral()
    ensures "," + (NumOpen(QUERY_RESULTS) + ("[]" + ("," + StrOpen(STAGE_ERROR)))) == NO_RESULTS
  {
  }

  lemma HeaderText(batchId: nat, exitCode: int, signal: int)
    ensures "{" + RenderMembers(HeaderMembers(batchId, exitCode, signal))
         == HeaderLine(batchId, exitCode, signal)
  {
    ResponseLiterals();
    var ms := HeaderMembers(batchId, exitCode, signal);
    var b, e, g := Integer(batchId), Integer(exitCode), Integer(signal);
    MembersText(ms);
    MembersText(ms[1..]);
    assert ms[1..][1..] == [ms[2]];
    MemberOpen(BATCH_ID, ms[0].value);
    MemberOpen(EXIT_CODE, ms[1].value);
    MemberOpen(SIGNAL, ms[2].value);
    var p, q, r := NumOpen(BATCH_ID), NumOpen(EXIT_CODE), NumOpen(SIGNAL);
    assert RenderMembers(ms[1..]) == (q + e) + "," + (r + g);
    assert RenderMembers(ms) == (p + b) + "," + ((q + e) + "," + (r + g));
    HeaderRegrouped(p, b, q, e, r, g);
  }

  lemma HeaderRegrouped(p: string, b: string, q: string, e: string, r: string, g: string)
    ensures "{" + ((p + b) + "," + ((q + e) + "," + (r + g))) == ("{" + p) + b + ("," + q) + e + ("," + r) + g
  {
    Regroup3("{", p, b);
    Regroup4("{", p + b, ",", (q + e) + "," + (r + g));
    Regroup4(q, e, ",", r + g);
    Regroup3(",", q, e + ("," + (r + g)));
    Regroup3(("{" + p) + b, "," + q, e + ("," + (r + g)));
    Regroup3(",", r, g);
    Regroup3(("{" + p) + b + ("," + q), e, ("," + r) + g);
    Regroup3(("{" + p) + b + ("," + q) + e, "," + r, g);
  }

  /** The line for a trace: its braces stripped behind the header, or no results and a message. */
  function ResponseLine(batchId: nat, exitCode: int, signal: int, signalName: string, trace: string): string {
    HeaderLine(batchId, exitCode, signal)
    + (if Braced(trace) then "," + trace[1..|trace| - 1]
       else NO_RESULTS + Escape(FailureMessage(exitCode, signal, signalName)) + "\"")
    + "}\n"
  }

  /** Writes one response line. */
  method Respond(batchId: nat, exitCode: int, signal: int, signalName: string, trace: string) returns (line: string)
    ensures line == ResponseLine(batchId, exitCode, signal, signalName, trace)
    ensures forall ms | ms != [] && trace == Render(Obj(ms)) ::
      line == Render(Obj(HeaderMembers(batchId, exitCode, signal) + ms)) + "\n"
    ensures !Braced(trace) ==>
      line == Render(Obj(HeaderMembers(batchId, exitCode, signal)
                         + PayloadMembers([], FailureMessage(exitCode, signal, signalName)))) + "\n"
  {
    var opening := HeaderLine(batchId, exitCode, signal);
    if |trace| >= 2 && trace[0] == '{' && trace[|trace| - 1] == '}' {
      line := opening + ("," + trace[1..|trace| - 1]);
    } else {
      var message := JsonEscape(FailureMessage(exitCode, signal, signalName));
      line := opening + (NO_RESULTS + message + "\"");
    }
    line := line + "}\n";
    forall ms | ms != [] && trace == Render(Obj(ms))
      ensures line == Render(Obj(HeaderMembers(batchId, exitCode, signal) + ms)) + "\n"
    {
      LineCarriesTrace(batchId, exitCode, signal, signalName, ms);
    }
    if !Braced(trace) {
      LineReportsFailure(batchId, exitCode, signal, signalName, trace);
    }
  }

  /** With a trace, the line is the object of the header and the trace's own members. */
  lemma LineCarriesTrace(batchId: nat, exitCode: int, signal: int, signalName: string, ms: seq<Member>)
    requires ms != []
    ensures ResponseLine(batchId, exitCode, signal, signalName, Render(Obj(ms)))
         == Render(Obj(HeaderMembers(batchId, exitCode, signal) + ms)) + "\n"
  {
    var opening := HeaderLine(batchId, exitCode, signal);
    StrippedBraces(ms);
    Regroup3(opening, ",", RenderMembers(ms));
    AssembledLine(batchId, exitCode, signal, ms, opening);
  }

  /** Without one, it is the object of the header, no results and the failure message. */
  lemma LineReportsFailure(batchId: nat, exitCode: int, signal: int, signalName: string, trace: string)
    requires !Braced(trace)
    ensures ResponseLine(batchId, exitCode, signal, signalName, trace)
         == Render(Obj(HeaderMembers(batchId, exitCode, signal)
                       + PayloadMembers([], FailureMessage(exitCode, signal, signalName)))) + "\n"
  {
    var opening, message := HeaderLine(batchId, exitCode, signal), FailureMessage(exitCode, signal, signalName);
    var body := PayloadMembers([], message);
    NoResultsText(message);
    LineClosed(opening, NO_RESULTS, Escape(message), RenderMembers(body));
    AssembledLine(batchId, exitCode, signal, body, opening);
  }

  lemma StrippedBraces(ms: seq<Member>)
    ensures Braced(Render(Obj(ms)))
    ensures Render(Obj(ms))[1..|Render(Obj(ms))| - 1] == RenderMembers(ms)
  {
  }

  lemma AssembledLine(batchId: nat, exitCode: int, signal: int, body: seq<Member>, opening: string)
    requires body != []
    requires opening == HeaderLine(batchId, exitCode, signal)
    ensures opening + "," + RenderMembers(body) + "}\n" == Render(Obj(HeaderMembers(batchId, exitCode, signal) + body)) + "\n"
  {
    var header := HeaderMembers(batchId, exitCode, signal);
    HeaderText(batchId, exitCode, signal);
    RenderMembersAppend(header, body);
    SplicedText(RenderMembers(header), RenderMembers(body));
  }

  lemma SplicedText(header: string, body: string)
    ensures ("{" + header) + "," + body + "}\n" == ("{" + (header + "," + body) + "}") + "\n"
  {
    assert "}" + "\n" == "}\n";
    Regroup3(("{" + header) + "," + body, "}", "\n");
    Regroup4("{", header, ",", body);
    Regroup3(header, ",", body);
  }

  lemma EmptyListGlued(p: string, q: string, w: string)
    ensures "," + (p + ("[]" + ("," + (q + w)))) == ("," + (p + ("[]" + ("," + q)))) + w
  {
    Regroup3(",", q, w);
    Regroup3("[]", "," + q, w);
    Regroup3(p, "[]" + ("," + q), w);
    Regroup3(",", p + ("[]" + ("," + q)), w);
  }

  lemma NoResultsText(message: string)
    ensures "," + (RenderMembers(PayloadMembers([], message)) + "}") == NO_RESULTS + (Escape(message) + CLOSE)
  {
    NamesPlain();
    NoResultsLiteral();
    assert ResultValues([]) == [] && Render(Arr([])) == "[]";
    TwoMembersText(PayloadMembers([], message), QUERY_RESULTS, Arr([]), STAGE_ERROR, message);
    EmptyListGlued(NumOpen(QUERY_RESULTS), StrOpen(STAGE_ERROR), Escape(message) + CLOSE);
  }

  lemma LineClosed(opening: string, literal: string, e: string, body: string)
    requires "," + (body + "}") == literal + (e + CLOSE)
    ensures opening + (literal + e + "\"") + "}\n" == opening + "," + body + "}\n"
  {
    Regroup4(literal, e, "\"", "}");
    Regroup3(",", body, "}");
    assert "\"" + "}" == CLOSE;
    assert "}" + "\n" == "}\n";
    Regroup3(literal + e + "\"", "}", "\n");
    Regroup3("," + body, "}", "\n");
    Regroup3(opening, literal + e + "\"", "}\n");
    Regroup3(opening, "," + body, "}\n");
    Regroup3(opening, ",", body);
  }

  lemma HeaderReadable(batchId: nat, exitCode: int, signal: int, body: seq<Member>)
    requires forall m | m in body :: NumbersValid(m.value)
    ensures
      var j := Obj(HeaderMembers(batchId, exitCode, signal) + body);
      ReadDocument(Render(j)) == Some(j) && '\n' !in Render(j)
  {
    HeaderValid(batchId, exitCode, signal);
    var j := Obj(HeaderMembers(batchId, exitCode, signal) + body);
    DocumentRoundTrip(j);
    RenderPrintable(j);
  }

  lemma HeaderValid(batchId: nat, exitCode: int, signal: int)
    ensures forall m | m in HeaderMembers(batchId, exitCode, signal) :: NumbersValid(m.value)
  {
    IntegerIsNumber(batchId);
    IntegerIsNumber(exitCode);
    IntegerIsNumber(signal);
  }

  lemma OneMoreUnread(m: Member, ms: seq<Member>, rest: string)
    requires ms != [] && NumbersValid(m.value) && ReadMembers(RenderMembers(ms) + "}" + rest).None?
    ensures ReadMembers(RenderMembers([m] + ms) + "}" + rest).None?
  {
    assert ([m] + ms)[1..] == ms;
    LaterMembersUnread([m] + ms, rest);
  }

  lemma BehindHeaderUnread(a: Member, b: Member, c: Member, body: seq<Member>)
    requires NumbersValid(a.value) && NumbersValid(b.value) && NumbersValid(c.value)
    requires body != [] && ReadMembers(RenderMembers(body) + "}" + "").None?
    ensures ReadMembers(RenderMembers([a, b, c] + body) + "}" + "").None?
  {
    OneMoreUnread(c, body, "");
    OneMoreUnread(b, [c] + body, "");
    OneMoreUnread(a, [b] + ([c] + body), "");
    assert [a] + ([b] + ([c] + body)) == [a, b, c] + body;
  }

  lemma ResponseUnread(batchId: nat, exitCode: int, signal: int, body: seq<Member>)
    requires body != [] && ReadMembers(RenderMembers(body) + "}" + "").None?
    ensures ReadDocument(Render(Obj(HeaderMembers(batchId, exitCode, signal) + body))).None?
  {
    var header := HeaderMembers(batchId, exitCode, signal);
    HeaderValid(batchId, exitCode, signal);
    BehindHeaderUnread(header[0], header[1], header[2], body);
    DocumentUnread([header[0], header[1], header[2]] + body);
  }

  lemma LineEnds(text: string)
    ensures text + "\n" != "" && (text + "\n")[|text + "\n"| - 1] == '\n' && (text + "\n")[..|text + "\n"| - 1] == text
  {
  }

  /** From the query stage to the reader of the response. If every time is a finite number, the line ends
      in its only newline, and what precedes it is a JSON object of the header numbers and every field of
      every record; otherwise it is no JSON text. */
  lemma ResponseReadable(batchId: nat, exitCode: int, signal: int, signalName: string, rs: seq<QueryResult>, stageError: string)
    ensures
      var line := ResponseLine(batchId, exitCode, signal, signalName, Render(Obj(PayloadMembers(rs, stageError))));
      var members := HeaderMembers(batchId, exitCode, signal) + PayloadMembers(rs, stageError);
      && line != "" && line[|line| - 1] == '\n'
      && (AllFinite(rs) ==> '\n' !in line[..|line| - 1] && ReadDocument(line[..|line| - 1]) == Some(Obj(members)))
      && (!AllFinite(rs) ==> ReadDocument(line[..|line| - 1]).None?)
  {
    var header, body := HeaderMembers(batchId, exitCode, signal), PayloadMembers(rs, stageError);
    LineCarriesTrace(batchId, exitCode, signal, signalName, body);
    LineEnds(Render(Obj(header + body)));
    if AllFinite(rs) {
      PayloadNumbersValid(rs, stageError);
      HeaderReadable(batchId, exitCode, signal, body);
    } else {
      PayloadUnread(rs, stageError);
      ResponseUnread(batchId, exitCode, signal, body);
    }
  }

  /** The same for a batch without a trace: no results, and the failure message. */
  lemma FailureReadable(batchId: nat, exitCode: int, signal: int, signalName: string, trace: string)
    requires !Braced(trace)
    ensures
      var line := ResponseLine(batchId, exitCode, signal, signalName, trace);
      var members := HeaderMembers(batchId, exitCode, signal)
        + PayloadMembers([], FailureMessage(exitCode, signal, signalName));
      && line != "" && line[|line| - 1] == '\n' && '\n' !in line[..|line| - 1]
      && ReadDocument(line[..|line| - 1]) == Some(Obj(members))
  {
    var body := PayloadMembers([], FailureMessage(exitCode, signal, signalName));
    PayloadNumbersValid([], FailureMessage(exitCode, signal, signalName));
    LineReportsFailure(batchId, exitCode, signal, signalName, trace);
    HeaderReadable(batchId, exitCode, signal, body);
    LineEnds(Render(Obj(HeaderMembers(batchId, exitCode, signal) + body)));
  }
}
