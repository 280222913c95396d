/** JSON text: the printer's escaping, and a reader for the whole grammar of RFC 8259 without
    insignificant whitespace. Text is a sequence of characters; a byte of the original is one. */
module Json {
  import opened Wrappers

  /** A number is kept as its text. */
  datatype Json = Null | Bool(b: bool) | Str(s: string) | Num(text: string) | Arr(items: seq<Json>) | Obj(members: seq<Member>)

  datatype Member = Member(name: string, value: Json)

  datatype Read<+T> = Read(value: T, rest: string)

  // ---- escaping -----------------------------------------------------------

  const HEX := "0123456789abcdef"

  function EscapeChar(c: char): (e: string)
    ensures e != ""
  {
    if c == '\"' then "\\\""
    else if c == '\\' then "\\\\"
    else if c == '\n' then "\\n"
    else if c == '\r' then "\\r"
    else if c == '\t' then "\\t"
    else if c < ' ' then "\\u00" + [HEX[c as int / 16], HEX[c as int % 16]]
    else [c]
  }

  function Escape(s: string): string {
    if s == "" then "" else EscapeChar(s[0]) + Escape(s[1..])
  }

  lemma {:induction false} EscapeAppend(s: string, t: string)
    ensures Escape(s + t) == Escape(s) + Escape(t)
  {
    if s == "" {
      assert s + t == t;
    } else {
      assert (s + t)[1..] == s[1..] + t;
      EscapeAppend(s[1..], t);
    }
  }

  /** The printer's loop over the characters of a string. */
  method JsonEscape(s: string) returns (r: string)
    ensures r == Escape(s)
  {
    r := "";
    for i := 0 to |s|
      invariant r == Escape(s[..i])
    {
      assert s[..i + 1] == s[..i] + [s[i]];
      EscapeAppend(s[..i], [s[i]]);
      assert Escape([s[i]]) == EscapeChar(s[i]) + Escape("");
      r := r + EscapeChar(s[i]);
    }
    assert s[..|s|] == s;
  }

  // ---- rendering ----------------------------------------------------------------

  function Quoted(s: string): string {
    "\"" + Escape(s) + "\""
  }

  function Render(j: Json): string
    decreases j, 1
  {
    match j
    case Null => "null"
    case Bool(b) => if b then "true" else "false"
    case Str(s) => Quoted(s)
    case Num(text) => text
    case Arr(items) => "[" + RenderItems(items) + "]"
    case Obj(members) => "{" + RenderMembers(members) + "}"
  }

  function RenderItems(xs: seq<Json>): string
    decreases xs, 0
  {
    if xs == [] then ""
    else if |xs| == 1 then Render(xs[0])
    else Render(xs[0]) + "," + RenderItems(xs[1..])
  }

  function RenderMembers(ms: seq<Member>): string
    decreases ms, 0
  {
    if ms == [] then ""
    else
      var head := Quoted(ms[0].name) + ":" + Render(ms[0].value);
      if |ms| == 1 then head else head + "," + RenderMembers(ms[1..])
  }

  lemma {:induction false} RenderItemsAppend(xs: seq<Json>, x: Json)
    ensures RenderItems(xs + [x]) == RenderItems(xs) + (if xs == [] then "" else ",") + Render(x)
  {
    if |xs| > 0 {
      assert (xs + [x])[1..] == xs[1..] + [x];
      RenderItemsAppend(xs[1..], x);
    }
  }

  lemma {:induction false} RenderMembersAppend(ms: seq<Member>, more: seq<Member>)
    requires ms != [] && more != []
    ensures RenderMembers(ms + more) == RenderMembers(ms) + "," + RenderMembers(more)
  {
    assert (ms + more)[1..] == ms[1..] + more;
    if |ms| > 1 {
      RenderMembersAppend(ms[1..], more);
    } else {
      assert ms[1..] + more == more;
    }
  }

  // ---- numbers --------------------------------------------------------------------

  predicate IsDigit(c: char) {
    '0' <= c <= '9'
  }

  predicate NumberChar(c: char) {
    IsDigit(c) || c == '-' || c == '+' || c == '.' || c == 'e' || c == 'E'
  }

  /** Length of the run of digits t starts with. */
  function DigitSpan(t: string): (k: nat)
    ensures k <= |t|
  {
    if t == "" || !IsDigit(t[0]) then 0 else 1 + DigitSpan(t[1..])
  }

  predicate IsExponent(t: string) {
    t == "" ||
    ((t[0] == 'e' || t[0] == 'E')
     && var u := if |t| > 1 && (t[1] == '+' || t[1] == '-') then t[2..] else t[1..];
        u != "" && DigitSpan(u) == |u|)
  }

  predicate IsFraction(t: string) {
    if t != "" && t[0] == '.' then
      DigitSpan(t[1..]) > 0 && IsExponent(t[1 + DigitSpan(t[1..])..])
    else IsExponent(t)
  }

  predicate IsUnsigned(t: string) {
    var k := DigitSpan(t);
    k > 0 && (t[0] == '0' ==> k == 1) && IsFraction(t[k..])
  }

  /** The number grammar of RFC 8259, section 6. */
  predicate IsNumber(t: string) {
    IsUnsigned(if t != "" && t[0] == '-' then t[1..] else t)
  }

  ghost predicate AllNumberChars(t: string) {
    forall i | 0 <= i < |t| :: NumberChar(t[i])
  }

  lemma {:induction false} DigitsAreNumberChars(t: string)
    ensures forall i | 0 <= i < DigitSpan(t) :: IsDigit(t[i])
  {
    if t != "" && IsDigit(t[0]) {
      DigitsAreNumberChars(t[1..]);
      forall i | 0 <= i < DigitSpan(t)
        ensures IsDigit(t[i])
      {
        assert i > 0 ==> t[i] == t[1..][i - 1];
      }
    }
  }

  lemma ExponentChars(t: string)
    requires IsExponent(t)
    ensures AllNumberChars(t)
  {
    if t != "" {
      var k := if |t| > 1 && (t[1] == '+' || t[1] == '-') then 2 else 1;
      DigitsAreNumberChars(t[k..]);
    }
  }

  lemma FractionChars(t: string)
    requires IsFraction(t)
    ensures AllNumberChars(t)
  {
    if t != "" && t[0] == '.' {
      var k := 1 + DigitSpan(t[1..]);
      DigitsAreNumberChars(t[1..]);
      ExponentChars(t[k..]);
      forall i | 0 <= i < k
        ensures NumberChar(t[i])
      {
        assert i > 0 ==> t[i] == t[1..][i - 1];
      }
    } else {
      ExponentChars(t);
    }
  }

  lemma UnsignedChars(t: string)
    requires IsUnsigned(t)
    ensures AllNumberChars(t)
  {
    var k := DigitSpan(t);
    DigitsAreNumberChars(t);
    FractionChars(t[k..]);
  }

  lemma NumberChars(t: string)
    requires IsNumber(t)
    ensures t != "" && AllNumberChars(t) && (t[0] == '-' || IsDigit(t[0]))
  {
    if t != "" && t[0] == '-' {
      UnsignedChars(t[1..]);
    } else {
      UnsignedChars(t);
    }
  }

  function NumberSpan(t: string): (k: nat)
    ensures k <= |t|
  {
    if t == "" || !NumberChar(t[0]) then 0 else 1 + NumberSpan(t[1..])
  }

  /** A text that follows a value: it does not go on as a number would. */
  predicate Ends(rest: string) {
    rest == "" || !NumberChar(rest[0])
  }

  lemma {:induction false} NumberSpanIsWhole(t: string, rest: string)
    requires AllNumberChars(t) && Ends(rest)
    ensures NumberSpan(t + rest) == |t|
  {
    if t == "" {
      assert t + rest == rest;
    } else {
      assert (t + rest)[1..] == t[1..] + rest;
      NumberSpanIsWhole(t[1..], rest);
    }
  }

  // ---- the reader ---------------------------------------------------------------------

  function HexValue(c: char): Option<nat> {
    if '0' <= c <= '9' then Some(c as int - '0' as int)
    else if 'a' <= c <= 'f' then Some(c as int - 'a' as int + 10)
    else if 'A' <= c <= 'F' then Some(c as int - 'A' as int + 10)
    else None
  }

  /** The character of a \u escape. Surrogate halves are not read. */
  function UnicodeEscape(h: string): Option<char>
    requires |h| == 4
  {
    match (HexValue(h[0]), HexValue(h[1]), HexValue(h[2]), HexValue(h[3]))
    case (Some(a), Some(b), Some(c), Some(d)) =>
      var code := a * 4096 + b * 256 + c * 16 + d;
      if code < 0xD800 || 0xE000 <= code < 0x10000 then Some(code as char) else None
    case _ => None
  }

  function SimpleEscape(c: char): Option<char> {
    if c == '\"' || c == '\\' || c == '/' then Some(c)
    else if c == 'b' then Some(8 as char)
    else if c == 'f' then Some(12 as char)
    else if c == 'n' then Some('\n')
    else if c == 'r' then Some('\r')
    else if c == 't' then Some('\t')
    else None
  }

  /** One character of a string literal, RFC 8259, section 7. */
  function ReadChar(t: string): (r: Option<Read<char>>)
    ensures r.Some? ==> |r.value.rest| < |t|
  {
    if t == "" || t[0] < ' ' || t[0] == '\"' then None
    else if t[0] != '\\' then Some(Read(t[0], t[1..]))
    else if |t| >= 6 && t[1] == 'u' then
      match UnicodeEscape(t[2..6])
      case Some(c) => Some(Read(c, t[6..]))
      case None => None
    else if |t| >= 2 then
      match SimpleEscape(t[1])
      case Some(c) => Some(Read(c, t[2..]))
      case None => None
    else None
  }

  /** The rest of a string literal after its opening quote. */
  function ReadString(t: string): (r: Option<Read<string>>)
    ensures r.Some? ==> |r.value.rest| < |t|
    decreases |t|
  {
    if t == "" then None
    else if t[0] == '\"' then Some(Read("", t[1..]))
    else
      match ReadChar(t)
      case None => None
      case Some(Read(c, rest)) =>
        match ReadString(rest)
        case None => None
        case Some(Read(s, rest2)) => Some(Read([c] + s, rest2))
  }

  function ReadNumber(t: string): (r: Option<Read<Json>>)
    ensures r.Some? ==> |r.value.rest| < |t|
  {
    var k := NumberSpan(t);
    if IsNumber(t[..k]) then Some(Read(Num(t[..k]), t[k..])) else None
  }

  function ReadLiteral(t: string): (r: Option<Read<Json>>)
    ensures r.Some? ==> |r.value.rest| < |t|
  {
    if "null" <= t then Some(Read(Null, t[4..]))
    else if "true" <= t then Some(Read(Bool(true), t[4..]))
    else if "false" <= t then Some(Read(Bool(false), t[5..]))
    else None
  }

  function ReadValue(t: string): (r: Option<Read<Json>>)
    ensures r.Some? ==> |r.value.rest| < |t|
    decreases |t|, 0
  {
    if t == "" then None
    else if t[0] == '\"' then
      match ReadString(t[1..])
      case None => None
      case Some(Read(s, rest)) => Some(Read(Str(s), rest))
    else if t[0] == '[' then
      if |t| > 1 && t[1] == ']' then Some(Read(Arr([]), t[2..]))
      else
        match ReadItems(t[1..])
        case None => None
        case Some(Read(items, rest)) => Some(Read(Arr(items), rest))
    else if t[0] == '{' then
      if |t| > 1 && t[1] == '}' then Some(Read(Obj([]), t[2..]))
      else
        match ReadMembers(t[1..])
        case None => None
        case Some(Read(members, rest)) => Some(Read(Obj(members), rest))
    else if t[0] == '-' || IsDigit(t[0]) then ReadNumber(t)
    else ReadLiteral(t)
  }

  /** The items of an array after its bracket, through the closing one. */
  function ReadItems(t: string): (r: Option<Read<seq<Json>>>)
    ensures r.Some? ==> |r.value.rest| < |t|
    decreases |t|, 1
  {
    match ReadValue(t)
    case None => None
    case Some(Read(x, rest)) =>
      if rest != "" && rest[0] == ']' then Some(Read([x], rest[1..]))
      else if rest != "" && rest[0] == ',' then
        match ReadItems(rest[1..])
        case None => None
        case Some(Read(xs, rest2)) => Some(Read([x] + xs, rest2))
      else None
  }

  /** The members of an object after its brace, through the closing one. */
  function ReadMembers(t: string): (r: Option<Read<seq<Member>>>)
    ensures r.Some? ==> |r.value.rest| < |t|
    decreases |t|, 1
  {
    if t == "" || t[0] != '\"' then None
    else
      match ReadString(t[1..])
      case None => None
      case Some(Read(name, rest)) =>
        if rest == "" || rest[0] != ':' then None
        else
          match ReadValue(rest[1..])
          case None => None
          case Some(Read(value, rest2)) =>
            if rest2 != "" && rest2[0] == '}' then Some(Read([Member(name, value)], rest2[1..]))
            else if rest2 != "" && rest2[0] == ',' then
              match ReadMembers(rest2[1..])
              case None => None
              case Some(Read(more, rest3)) => Some(Read([Member(name, value)] + more, rest3))
            else None
  }

  /** A whole document: one value and nothing after it. */
  function ReadDocument(t: string): Option<Json> {
    match ReadValue(t)
    case Some(Read(j, rest)) => if rest == "" then Some(j) else None
    case None => None
  }

  // ---- the reader undoes the printer -----------------------------------------------------

  lemma Regroup3(a: string, b: string, c: string)
    ensures a + b + c == a + (b + c)
  {
  }

  lemma Regroup4(a: string, b: string, c: string, d: string)
    ensures a + b + c + d == a + (b + (c + d))
  {
    Regroup3(a + b, c, d);
  }

  lemma Regroup5(a: string, b: string, c: string, d: string, e: string)
    ensures a + b + c + d + e == a + (b + (c + d + e))
  {
    Regroup3(c, d, e);
    Regroup4(a, b, c, d + e);
    Regroup3(a + b + c, d, e);
  }

  predicate NumbersValid(j: Json) {
    match j
    case Num(text) => IsNumber(text)
    case Arr(items) => forall x | x in items :: NumbersValid(x)
    case Obj(members) => forall m | m in members :: NumbersValid(m.value)
    case _ => true
  }

  lemma ReadControlUndoesEscape(c: char, rest: string)
    requires c < ' ' && c != '\n' && c != '\r' && c != '\t'
    ensures ReadChar(EscapeChar(c) + rest) == Some(Read(c, rest))
  {
    var t := EscapeChar(c) + rest;
    var hi, lo := c as int / 16, c as int % 16;
    assert HexValue(HEX[hi]) == Some(hi) && HexValue(HEX[lo]) == Some(lo);
    assert t[2..6] == "00" + [HEX[hi], HEX[lo]];
    assert hi * 16 + lo == c as int;
    assert t[6..] == rest;
  }

  lemma ReadCharUndoesEscape(c: char, rest: string)
    ensures ReadChar(EscapeChar(c) + rest) == Some(Read(c, rest))
  {
    var t := EscapeChar(c) + rest;
    if c == '\"' || c == '\\' || c == '\n' || c == '\r' || c == '\t' {
      assert t[2..] == rest;
    } else if c < ' ' {
      ReadControlUndoesEscape(c, rest);
    } else {
      assert t[1..] == rest;
    }
  }

  lemma EscapedText(s: string, rest: string)
    requires s != ""
    ensures Escape(s) + "\"" + rest == EscapeChar(s[0]) + (Escape(s[1..]) + "\"" + rest)
  {
    Regroup4(EscapeChar(s[0]), Escape(s[1..]), "\"", rest);
    Regroup3(Escape(s[1..]), "\"", rest);
  }

  lemma EscapedStart(c: char, tail: string)
    ensures EscapeChar(c) + tail != "" && (EscapeChar(c) + tail)[0] != '\"'
  {
  }

  lemma ReadOneMore(t: string, c: char, tail: string, s: string, rest: string)
    requires t != "" && t[0] != '\"' && ReadChar(t) == Some(Read(c, tail)) && ReadString(tail) == Some(Read(s, rest))
    ensures ReadString(t) == Some(Read([c] + s, rest))
  {
  }

  lemma {:induction false} ReadStringUndoesEscape(s: string, rest: string)
    ensures ReadString(Escape(s) + "\"" + rest) == Some(Read(s, rest))
  {
    if s == "" {
      assert (Escape(s) + "\"" + rest)[1..] == rest;
    } else {
      var tail := Escape(s[1..]) + "\"" + rest;
      EscapedText(s, rest);
      ReadCharUndoesEscape(s[0], tail);
      EscapedStart(s[0], tail);
      ReadStringUndoesEscape(s[1..], rest);
      ReadOneMore(EscapeChar(s[0]) + tail, s[0], tail, s[1..], rest);
      assert s == [s[0]] + s[1..];
    }
  }

  lemma RenderStart(j: Json)
    requires NumbersValid(j)
    ensures Render(j) != "" && Render(j)[0] != ']' && Render(j)[0] != '}'
  {
    if j.Num? {
      NumberChars(j.text);
    }
  }

  lemma ReadLastItem(t: string, x: Json, rest: string)
    requires ReadValue(t) == Some(Read(x, "]" + rest))
    ensures ReadItems(t) == Some(Read([x], rest))
  {
    assert ("]" + rest)[1..] == rest;
  }

  lemma ReadNextItem(t: string, x: Json, more: string, xs: seq<Json>, rest: string)
    requires ReadValue(t) == Some(Read(x, "," + more)) && ReadItems(more) == Some(Read(xs, rest))
    ensures ReadItems(t) == Some(Read([x] + xs, rest))
  {
    assert ("," + more)[1..] == more;
  }

  lemma ReadName(name: string, value: string)
    ensures ReadString((Quoted(name) + value)[1..]) == Some(Read(name, value))
  {
    assert (Quoted(name) + value)[1..] == Escape(name) + "\"" + value;
    ReadStringUndoesEscape(name, value);
  }

  lemma ReadLastMember(name: string, value: string, x: Json, rest: string)
    requires ReadValue(value) == Some(Read(x, "}" + rest))
    ensures ReadMembers(Quoted(name) + (":" + value)) == Some(Read([Member(name, x)], rest))
  {
    ReadName(name, ":" + value);
    assert (":" + value)[1..] == value && ("}" + rest)[1..] == rest;
  }

  lemma ReadNextMember(name: string, value: string, x: Json, more: string, ms: seq<Member>, rest: string)
    requires ReadValue(value) == Some(Read(x, "," + more)) && ReadMembers(more) == Some(Read(ms, rest))
    ensures ReadMembers(Quoted(name) + (":" + value)) == Some(Read([Member(name, x)] + ms, rest))
  {
    ReadName(name, ":" + value);
    assert (":" + value)[1..] == value && ("," + more)[1..] == more;
  }

  lemma ReadScalarUndoesRender(j: Json, rest: string)
    requires NumbersValid(j) && Ends(rest) && !j.Arr? && !j.Obj?
    ensures ReadValue(Render(j) + rest) == Some(Read(j, rest))
  {
    var t := Render(j) + rest;
    assert t[|Render(j)|..] == rest;
    match j
    case Null =>
      assert t[..4] == "null";
    case Bool(b) =>
      assert t[..|Render(j)|] == Render(j);
    case Str(s) =>
      assert t == Quoted(s) + rest;
      ReadName(s, rest);
    case Num(text) =>
      NumberChars(text);
      NumberSpanIsWhole(text, rest);
      assert t[..|text|] == text;
  }

  lemma ReadArray(body: string, items: seq<Json>, rest: string)
    requires body != "" && body[0] != ']' && ReadItems(body) == Some(Read(items, rest))
    ensures ReadValue("[" + body) == Some(Read(Arr(items), rest))
  {
    assert ("[" + body)[1..] == body;
  }

  lemma ReadObject(body: string, members: seq<Member>, rest: string)
    requires body != "" && body[0] != '}' && ReadMembers(body) == Some(Read(members, rest))
    ensures ReadValue("{" + body) == Some(Read(Obj(members), rest))
  {
    assert ("{" + body)[1..] == body;
  }

  lemma LastItemText(x: Json, rest: string)
    ensures RenderItems([x]) + "]" + rest == Render(x) + ("]" + rest)
  {
    Regroup3(Render(x), "]", rest);
  }

  lemma SeparatedText(a: string, b: string, rest: string)
    ensures (a + "," + b) + "]" + rest == a + ("," + (b + "]" + rest))
  {
    Regroup5(a, ",", b, "]", rest);
    Regroup3(a, ",", b);
  }

  lemma NextItemText(xs: seq<Json>, rest: string)
    requires |xs| > 1
    ensures RenderItems(xs) + "]" + rest == Render(xs[0]) + ("," + (RenderItems(xs[1..]) + "]" + rest))
  {
    assert RenderItems(xs) == Render(xs[0]) + "," + RenderItems(xs[1..]);
    SeparatedText(Render(xs[0]), RenderItems(xs[1..]), rest);
  }

  lemma LastMemberText(name: string, x: Json, rest: string)
    ensures RenderMembers([Member(name, x)]) + "}" + rest == Quoted(name) + (":" + (Render(x) + ("}" + rest)))
  {
    var a, b := Quoted(name), Render(x);
    Regroup3(a + ":" + b, "}", rest);
    Regroup4(a, ":", b, "}" + rest);
  }

  lemma NextMemberText(ms: seq<Member>, rest: string)
    requires |ms| > 1
    ensures RenderMembers(ms) + "}" + rest ==
      Quoted(ms[0].name) + (":" + (Render(ms[0].value) + ("," + (RenderMembers(ms[1..]) + "}" + rest))))
  {
    var a, b, c := Quoted(ms[0].name), Render(ms[0].value), RenderMembers(ms[1..]);
    Regroup5(a + ":" + b, ",", c, "}", rest);
    Regroup4(a, ":", b, "," + (c + "}" + rest));
  }

  lemma EmptyContainers(rest: string)
    ensures ReadValue("[]" + rest) == Some(Read(Arr([]), rest))
    ensures ReadValue("{}" + rest) == Some(Read(Obj([]), rest))
  {
    assert ("[]" + rest)[2..] == rest && ("{}" + rest)[2..] == rest;
  }

  lemma ReadArrayText(items: seq<Json>, rest: string)
    requires items != [] && NumbersValid(items[0])
    requires ReadItems(RenderItems(items) + "]" + rest) == Some(Read(items, rest))
    ensures ReadValue(Render(Arr(items)) + rest) == Some(Read(Arr(items), rest))
  {
    var body := RenderItems(items) + "]" + rest;
    RenderStart(items[0]);
    assert body[0] == RenderItems(items)[0] == Render(items[0])[0];
    ReadArray(body, items, rest);
    assert ("[" + RenderItems(items) + "]") + rest == "[" + body;
  }

  lemma ReadObjectText(members: seq<Member>, rest: string)
    requires members != []
    requires ReadMembers(RenderMembers(members) + "}" + rest) == Some(Read(members, rest))
    ensures ReadValue(Render(Obj(members)) + rest) == Some(Read(Obj(members), rest))
  {
    var body := RenderMembers(members) + "}" + rest;
    assert body[0] == RenderMembers(members)[0] == '\"';
    ReadObject(body, members, rest);
    assert ("{" + RenderMembers(members) + "}") + rest == "{" + body;
  }

  /** Reading what was printed gives back the value, whatever well-separated text follows. */
  lemma {:induction false} ReadUndoesRender(j: Json, rest: string)
    requires NumbersValid(j) && Ends(rest)
    ensures ReadValue(Render(j) + rest) == Some(Read(j, rest))
    decreases j, 1
  {
    match j
    case Arr(items) =>
      if items == [] {
        EmptyContainers(rest);
      } else {
        ReadUndoesItems(items, rest);
        ReadArrayText(items, rest);
      }
    case Obj(members) =>
      if members == [] {
        EmptyContainers(rest);
      } else {
        ReadUndoesMembers(members, rest);
        ReadObjectText(members, rest);
      }
    case _ => ReadScalarUndoesRender(j, rest);
  }

  lemma {:induction false} ReadUndoesItems(xs: seq<Json>, rest: string)
    requires xs != [] && forall x | x in xs :: NumbersValid(x)
    ensures ReadItems(RenderItems(xs) + "]" + rest) == Some(Read(xs, rest))
    decreases xs, 0
  {
    var x := xs[0];
    if |xs| == 1 {
      ReadUndoesRender(x, "]" + rest);
      LastItemText(x, rest);
      ReadLastItem(Render(x) + ("]" + rest), x, rest);
      assert xs == [x];
    } else {
      var more := RenderItems(xs[1..]) + "]" + rest;
      ReadUndoesRender(x, "," + more);
      ReadUndoesItems(xs[1..], rest);
      NextItemText(xs, rest);
      ReadNextItem(Render(x) + ("," + more), x, more, xs[1..], rest);
      assert xs == [x] + xs[1..];
    }
  }

  lemma OnlyMemberRead(name: string, x: Json, rest: string)
    requires ReadValue(Render(x) + ("}" + rest)) == Some(Read(x, "}" + rest))
    ensures ReadMembers(RenderMembers([Member(name, x)]) + "}" + rest) == Some(Read([Member(name, x)], rest))
  {
    LastMemberText(name, x, rest);
    ReadLastMember(name, Render(x) + ("}" + rest), x, rest);
  }

  lemma FirstMemberRead(ms: seq<Member>, rest: string)
    requires |ms| > 1
    requires
      var more := RenderMembers(ms[1..]) + "}" + rest;
      && ReadValue(Render(ms[0].value) + ("," + more)) == Some(Read(ms[0].value, "," + more))
      && ReadMembers(more) == Some(Read(ms[1..], rest))
    ensures ReadMembers(RenderMembers(ms) + "}" + rest) == Some(Read(ms, rest))
  {
    var name, x, more := ms[0].name, ms[0].value, RenderMembers(ms[1..]) + "}" + rest;
    NextMemberText(ms, rest);
    ReadNextMember(name, Render(x) + ("," + more), x, more, ms[1..], rest);
    MembersCons(ms);
  }

  lemma MembersCons(ms: seq<Member>)
    requires ms != []
    ensures [Member(ms[0].name, ms[0].value)] + ms[1..] == ms
  {
  }

  lemma {:induction false} ReadUndoesMembers(ms: seq<Member>, rest: string)
    requires ms != [] && forall m | m in ms :: NumbersValid(m.value)
    ensures ReadMembers(RenderMembers(ms) + "}" + rest) == Some(Read(ms, rest))
    decreases ms, 0
  {
    var name, x := ms[0].name, ms[0].value;
    if |ms| == 1 {
      ReadUndoesRender(x, "}" + rest);
      OnlyMemberRead(name, x, rest);
      assert ms == [Member(name, x)];
    } else {
      var more := RenderMembers(ms[1..]) + "}" + rest;
      ReadUndoesRender(x, "," + more);
      ReadUndoesMembers(ms[1..], rest);
      FirstMemberRead(ms, rest);
    }
  }

  /** A printed document reads back as the value printed. */
  lemma DocumentRoundTrip(j: Json)
    requires NumbersValid(j)
    ensures ReadDocument(Render(j)) == Some(j)
  {
    ReadUndoesRender(j, "");
    assert Render(j) + "" == Render(j);
  }

  // ---- no raw control characters --------------------------------------------------------------

  ghost predicate Printable(t: string) {
    forall i | 0 <= i < |t| :: t[i] >= ' '
  }

  lemma {:induction false} EscapePrintable(s: string)
    ensures Printable(Escape(s))
  {
    if s != "" {
      EscapePrintable(s[1..]);
      EscapeCharPrintable(s[0]);
      PrintableParts(EscapeChar(s[0]), Escape(s[1..]));
    }
  }

  lemma EscapeCharPrintable(c: char)
    ensures Printable(EscapeChar(c))
  {
  }

  lemma PrintableParts(s: string, t: string)
    requires Printable(s) && Printable(t)
    ensures Printable(s + t)
  {
  }

  lemma {:induction false} RenderPrintable(j: Json)
    requires NumbersValid(j)
    ensures Printable(Render(j))
    decreases j, 1
  {
    match j
    case Str(s) => EscapePrintable(s);
    case Num(text) => NumberChars(text);
    case Arr(items) => ItemsPrintable(items);
    case Obj(members) => MembersPrintable(members);
    case _ =>
  }

  lemma {:induction false} ItemsPrintable(xs: seq<Json>)
    requires forall x | x in xs :: NumbersValid(x)
    ensures Printable(RenderItems(xs))
    decreases xs, 0
  {
    if xs != [] {
      RenderPrintable(xs[0]);
      ItemsPrintable(xs[1..]);
    }
  }

  lemma {:induction false} MembersPrintable(ms: seq<Member>)
    requires forall m | m in ms :: NumbersValid(m.value)
    ensures Printable(RenderMembers(ms))
    decreases ms, 0
  {
    if ms != [] {
      EscapePrintable(ms[0].name);
      RenderPrintable(ms[0].value);
      MembersPrintable(ms[1..]);
    }
  }
}
