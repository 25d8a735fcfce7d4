/**
  The JSON printer of JsonStd.h, against a parser that follows the grammar of RFC 8259. Text is
  handled a byte at a time, each byte a character below 256; what is beyond ASCII passes through.
 */
module Json {

  /** The values a QVariant tree is made of here. A map lists its entries in key order. */
  datatype Value =
    | Null
    | Bool(b: bool)
    | Number(n: int)
    | Text(s: string)
    | List(items: seq<Value>)
    | Map(entries: seq<Entry>)

  datatype Entry = Entry(key: string, value: Value)

  // ---------- printing strings ----------

  function HexDigit(n: nat): (c: char)
    requires n < 16
    ensures '0' <= c <= '9' || 'a' <= c <= 'f'
  {
    if n < 10 then '0' + n as char else 'a' + (n - 10) as char
  }

  /** What escape() makes of one byte. */
  function EscapedChar(c: char): (r: string)
    ensures r != ""
  {
    if c == '"' then "\\\""
    else if c == '\\' then "\\\\"
    else if c == '\n' then "\\n"
    else if c == '\r' then "\\r"
    else if c == '\t' then "\\t"
    else if c < ' ' then "\\u00" + [HexDigit(c as int / 16), HexDigit(c as int % 16)]
    else [c]
  }

  function Escaped(s: string): string {
    if s == "" then "" else EscapedChar(s[0]) + Escaped(s[1..])
  }

  lemma {:induction false} EscapedPush(s: string, c: char)
    ensures Escaped(s + [c]) == Escaped(s) + EscapedChar(c)
  {
    if s == "" {
      assert "" + [c] == [c];
      assert EscapedChar(c) + "" == EscapedChar(c);
    } else {
      assert (s + [c])[1..] == s[1..] + [c];
      EscapedPush(s[1..], c);
      var x, y, z := EscapedChar(s[0]), Escaped(s[1..]), EscapedChar(c);
      assert x + (y + z) == (x + y) + z;
    }
  }

  /** escape(). */
  method Escape(s: string) returns (r: string)
    ensures r == Escaped(s)
  {
    r := "";
    var i := 0;
    while i < |s|
      invariant i <= |s| && r == Escaped(s[..i])
    {
      var c := s[i];
      EscapedPush(s[..i], c);
      assert s[..i + 1] == s[..i] + [c];
      if c == '"' {
        r := r + "\\\"";
      } else if c == '\\' {
        r := r + "\\\\";
      } else if c == '\n' {
        r := r + "\\n";
      } else if c == '\r' {
        r := r + "\\r";
      } else if c == '\t' {
        r := r + "\\t";
      } else if c < ' ' {
        r := r + ("\\u00" + [HexDigit(c as int / 16), HexDigit(c as int % 16)]);
      } else {
        r := r + [c];
      }
      i := i + 1;
    }
    assert s[..i] == s;
  }

  /** No character below the space is left as it is. */
  lemma {:induction false} EscapedPlain(s: string, i: nat)
    requires i < |Escaped(s)|
    ensures Escaped(s)[i] >= ' '
  {
    var n := |EscapedChar(s[0])|;
    if i < n {
      assert Escaped(s)[i] == EscapedChar(s[0])[i];
    } else {
      EscapedPlain(s[1..], i - n);
    }
  }

  /** Reading along, a quote that no backslash precedes, or a backslash with nothing behind it. */
  predicate Breaks(s: string) {
    s != "" && (s[0] == '"' || (s[0] == '\\' && |s| == 1) || Breaks(if s[0] == '\\' then s[2..] else s[1..]))
  }

  /** An escaped string can stand between quotes. */
  lemma {:induction false} EscapedHolds(s: string)
    ensures !Breaks(Escaped(s))
  {
    if s != "" {
      EscapedHolds(s[1..]);
      var e, r := EscapedChar(s[0]), Escaped(s[1..]);
      PlainHolds(e, r);
    }
  }

  lemma PlainHolds(e: string, r: string)
    requires exists c: char :: e == EscapedChar(c)
    requires !Breaks(r)
    ensures !Breaks(e + r)
  {
    var c: char :| e == EscapedChar(c);
    if |e| == 1 {
      assert (e + r)[1..] == r;
    } else if |e| == 2 {
      assert (e + r)[2..] == r;
    } else {
      var t := (e + r)[2..];
      assert t[4..] == r && t[1..][1..][1..][1..] == t[4..];
      assert t[1..][1..][1..][0] == t[3] == e[5] && t[1..][1..][0] == t[2] == e[4] && t[1..][0] == t[1] == e[3]
          && t[0] == e[2];
      assert !Breaks(t[1..][1..][1..]);
      assert !Breaks(t[1..][1..]);
      assert !Breaks(t[1..]);
    }
  }

  // ---------- printing values ----------

  function Digit(n: nat): char
    requires n < 10
  {
    '0' + n as char
  }

  function Decimal(n: nat): (r: string)
    ensures r != ""
  {
    if n < 10 then [Digit(n)] else Decimal(n / 10) + [Digit(n % 10)]
  }

  function IntText(n: int): string {
    if n < 0 then "-" + Decimal(-n) else Decimal(n)
  }

  function Width(v: Value): nat {
    match v
    case List(items) => |items|
    case Map(entries) => |entries|
    case _ => 0
  }

  /** variantToJson() as a function. */
  function ToJson(v: Value): string
    decreases v, Width(v) + 2
  {
    match v
    case Null => "null"
    case Bool(b) => if b then "true" else "false"
    case Number(n) => IntText(n)
    case Text(s) => "\"" + Escaped(s) + "\""
    case List(items) => "[" + Items(v, 0) + "]"
    case Map(entries) => "{" + Members(v, 0) + "}"
  }

  /** The items from i on, with commas between them. */
  function Items(v: Value, i: nat): string
    requires v.List? && i <= |v.items|
    decreases v, 1 + |v.items| - i
  {
    if i == |v.items| then "" else ToJson(v.items[i]) + (if i + 1 == |v.items| then "" else "," + Items(v, i + 1))
  }

  function Member(e: Entry): string
    decreases e, 1
  {
    "\"" + Escaped(e.key) + "\":" + ToJson(e.value)
  }

  function Members(v: Value, i: nat): string
    requires v.Map? && i <= |v.entries|
    decreases v, 1 + |v.entries| - i
  {
    if i == |v.entries| then "" else Member(v.entries[i]) + (if i + 1 == |v.entries| then ""
        else "," + Members(v, i + 1))
  }

  /** What the loop has yet to append. */
  function RestOfItems(v: Value, i: nat): string
    requires v.List? && i <= |v.items|
  {
    if i == 0 || i == |v.items| then Items(v, i) else "," + Items(v, i)
  }

  function RestOfMembers(v: Value, i: nat): string
    requires v.Map? && i <= |v.entries|
  {
    if i == 0 || i == |v.entries| then Members(v, i) else "," + Members(v, i)
  }

  /** variantToJson(). */
  method Print(v: Value) returns (r: string)
    ensures r == ToJson(v)
    ensures (v.Null? ==> r == "null") && (v.Bool? ==> r == if v.b then "true" else "false")
    ensures v.Text? ==> r == "\"" + Escaped(v.s) + "\""
    ensures v.Number? ==> r == if v.n < 0 then "-" + Decimal(-v.n) else Decimal(v.n)
    decreases v, 1
  {
    match v {
      case Null => r := "null";
      case Bool(b) => r := if b then "true" else "false";
      case Number(n) => r := IntText(n);
      case Text(s) =>
        var e := Escape(s);
        r := "\"" + e + "\"";
      case List(_) => r := PrintList(v);
      case Map(_) => r := PrintMap(v);
    }
  }

  method PrintList(v: Value) returns (r: string)
    requires v.List?
    ensures r == "[" + Items(v, 0) + "]"
    decreases v, 0
  {
    r := "[";
    var i := 0;
    while i < |v.items|
      invariant i <= |v.items| && r + RestOfItems(v, i) == "[" + Items(v, 0)
    {
      ghost var before := r;
      NextItem(v, i, before);
      if i > 0 {
        r := r + ",";
      }
      var item := Print(v.items[i]);
      r := r + item;
      i := i + 1;
    }
    assert r + "" == r;
    r := r + "]";
  }

  lemma NextItem(v: Value, i: nat, r: string)
    requires v.List? && i < |v.items|
    ensures r + RestOfItems(v, i) == (if i > 0 then r + "," else r) + ToJson(v.items[i]) + RestOfItems(v, i + 1)
  {
    hide ToJson;
    var x := ToJson(v.items[i]);
    assert r + ("," + (x + RestOfItems(v, i + 1))) == (r + ",") + x + RestOfItems(v, i + 1);
    assert r + (x + RestOfItems(v, i + 1)) == r + x + RestOfItems(v, i + 1);
  }

  method PrintMap(v: Value) returns (r: string)
    requires v.Map?
    ensures r == "{" + Members(v, 0) + "}"
    decreases v, 0
  {
    r := "{";
    var first, i := true, 0;
    while i < |v.entries|
      invariant i <= |v.entries| && first == (i == 0) && r + RestOfMembers(v, i) == "{" + Members(v, 0)
    {
      NextMember(v, i, r);
      if !first {
        r := r + ",";
      }
      first := false;
      var key := Escape(v.entries[i].key);
      r := r + ("\"" + key + "\":");
      var value := Print(v.entries[i].value);
      r := r + value;
      i := i + 1;
    }
    assert r + "" == r;
    r := r + "}";
  }

  lemma NextMember(v: Value, i: nat, r: string)
    requires v.Map? && i < |v.entries|
    ensures var e := v.entries[i];
            r + RestOfMembers(v, i) == (if i > 0 then r + "," else r) + ("\"" + Escaped(e.key) + "\":")
                + ToJson(e.value) + RestOfMembers(v, i + 1)
  {
    hide ToJson, Escaped;
    var e := v.entries[i];
    var k, x := "\"" + Escaped(e.key) + "\":", ToJson(e.value);
    assert Member(e) == k + x;
    assert r + ("," + (k + x + RestOfMembers(v, i + 1))) == (r + ",") + k + x + RestOfMembers(v, i + 1);
    assert r + (k + x + RestOfMembers(v, i + 1)) == r + k + x + RestOfMembers(v, i + 1);
  }

  // ---------- what is printed, written out ----------

  lemma {:induction false} EscapedAppend(a: string, b: string)
    ensures Escaped(a + b) == Escaped(a) + Escaped(b)
  {
    if b == "" {
      assert a + b == a;
    } else {
      var n := |b| - 1;
      assert a + b == (a + b[..n]) + [b[n]] && b == b[..n] + [b[n]];
      EscapedAppend(a, b[..n]);
      EscapedPush(a + b[..n], b[n]);
      EscapedPush(b[..n], b[n]);
    }
  }

  /** Character by character, by their codes: the two that would end the string, the control characters, the rest. */
  lemma EscapedByCode(c: char)
    ensures Escaped([c])
         == if c as int == 34 || c as int == 92 then [92 as char, c]
            else if c as int == 10 then [92 as char, 110 as char]
            else if c as int == 13 then [92 as char, 114 as char]
            else if c as int == 9 then [92 as char, 116 as char]
            else if c as int < 32 then
              [92 as char, 117 as char, 48 as char, 48 as char, (48 + c as int / 16) as char,
               "0123456789abcdef"[c as int % 16]]
            else [c]
  {
    assert EscapedChar(c) + "" == EscapedChar(c) && [c][1..] == "";
    if c as int < 32 { HexByCode(c as int % 16); }
  }

  lemma HexByCode(n: nat)
    requires n < 16
    ensures HexDigit(n) == "0123456789abcdef"[n]
  {
  }

  /** The number that digits stand for. */
  function Positional(r: string): int {
    if r == "" then 0 else 10 * Positional(r[..|r| - 1]) + (r[|r| - 1] as int - 48)
  }

  /** A printed number consists of digits, of which the first is no zero unless it is the only one, and means itself. */
  lemma {:induction false} DecimalMeans(n: nat)
    ensures var r := Decimal(n);
            && (forall i :: 0 <= i < |r| ==> 48 <= r[i] as int <= 57) && Positional(r) == n
            && (n >= 10 ==> |r| > 1) && (n > 0 ==> r[0] as int != 48)
  {
    var r := Decimal(n);
    if n < 10 {
      assert r[..0] == "";
    } else {
      DecimalMeans(n / 10);
      assert r[..|r| - 1] == Decimal(n / 10);
      assert r[0] == Decimal(n / 10)[0];
    }
  }

  lemma {:induction false} ItemsPush(items: seq<Value>, x: Value, i: nat)
    requires i <= |items|
    ensures Items(List(items + [x]), i) == Items(List(items), i) + (if i < |items| then "," else "") + ToJson(x)
    decreases |items| - i
  {
    hide ToJson;
    if i < |items| { ItemsPush(items, x, i + 1); }
  }

  /** A list with one item more: the bracket moves behind a comma, if there is anything in front, and the item. */
  lemma ListPush(items: seq<Value>, x: Value)
    ensures var s := ToJson(List(items));
            && |s| >= 2 && s[0] == '[' && s[|s| - 1] == ']' && (items == [] ==> s == "[]")
            && ToJson(List(items + [x])) == s[..|s| - 1] + (if items == [] then "" else ",") + ToJson(x) + "]"
  {
    ItemsPush(items, x, 0);
    hide Items;
    ListText(items);
    ListText(items + [x]);
    var s, t := ToJson(List(items)), Items(List(items), 0);
    assert s[..|s| - 1] == "[" + t;
    if items == [] { NoItemsText(); }
  }

  lemma ListText(items: seq<Value>)
    ensures ToJson(List(items)) == "[" + Items(List(items), 0) + "]"
  {
  }

  lemma NoItemsText()
    ensures Items(List([]), 0) == "" && Members(Map([]), 0) == ""
  {
  }

  lemma {:induction false} MembersPush(entries: seq<Entry>, e: Entry, i: nat)
    requires i <= |entries|
    ensures Members(Map(entries + [e]), i) == Members(Map(entries), i) + (if i < |entries| then "," else "") + Member(e)
    decreases |entries| - i
  {
    hide Member;
    if i < |entries| { MembersPush(entries, e, i + 1); }
  }

  /** The same for a map and one entry more. */
  lemma MapPush(entries: seq<Entry>, e: Entry)
    ensures var s := ToJson(Map(entries));
            && |s| >= 2 && s[0] == '{' && s[|s| - 1] == '}' && (entries == [] ==> s == "{}")
            && ToJson(Map(entries + [e])) == s[..|s| - 1] + (if entries == [] then "" else ",")
                 + ("\"" + Escaped(e.key) + "\":" + ToJson(e.value)) + "}"
  {
    MembersPush(entries, e, 0);
    assert Member(e) == "\"" + Escaped(e.key) + "\":" + ToJson(e.value);
    hide Members, Member;
    MapText(entries);
    MapText(entries + [e]);
    var s, t := ToJson(Map(entries)), Members(Map(entries), 0);
    assert s[..|s| - 1] == "{" + t;
    if entries == [] { NoItemsText(); }
  }

  lemma MapText(entries: seq<Entry>)
    ensures ToJson(Map(entries)) == "{" + Members(Map(entries), 0) + "}"
  {
  }

  // ---------- a parser by the grammar of RFC 8259 ----------

  datatype Parsed<T> = Fail | Parsed(value: T, rest: string)

  predicate Space(c: char) { c == ' ' || c == '\t' || c == '\n' || c == '\r' }

  function Skip(s: string): (r: string)
    ensures |r| <= |s|
  {
    if s != "" && Space(s[0]) then Skip(s[1..]) else s
  }

  function HexValue(c: char): (v: int)
    ensures -1 <= v < 16
  {
    if '0' <= c <= '9' then c as int - '0' as int
    else if 'a' <= c <= 'f' then c as int - 'a' as int + 10
    else if 'A' <= c <= 'F' then c as int - 'A' as int + 10
    else -1
  }

  /** A character of the basic plane as bytes. */
  function Utf8(code: nat): string
    requires code < 0x1_0000
  {
    if code < 0x80 then [code as char]
    else if code < 0x800 then [(0xC0 + code / 0x40) as char, (0x80 + code % 0x40) as char]
    else [(0xE0 + code / 0x1000) as char, (0x80 + code / 0x40 % 0x40) as char, (0x80 + code % 0x40) as char]
  }

  /** What stands for one escape sequence, and how long it was; surrogates are not followed up. */
  function Unescape(s: string): Parsed<string>
    requires |s| >= 2
    ensures var r := Unescape(s); r.Parsed? ==> |r.rest| < |s|
  {
    var c := s[1];
    if c == '"' || c == '\\' || c == '/' then Parsed([c], s[2..])
    else if c == 'b' then Parsed([8 as char], s[2..])
    else if c == 'f' then Parsed([12 as char], s[2..])
    else if c == 'n' then Parsed("\n", s[2..])
    else if c == 'r' then Parsed("\r", s[2..])
    else if c == 't' then Parsed("\t", s[2..])
    else if c == 'u' && |s| >= 6 && HexValue(s[2]) >= 0 && HexValue(s[3]) >= 0 && HexValue(s[4]) >= 0
        && HexValue(s[5]) >= 0 then
      var code := ((HexValue(s[2]) * 16 + HexValue(s[3])) * 16 + HexValue(s[4])) * 16 + HexValue(s[5]);
      if 0xD800 <= code < 0xE000 then Fail else Parsed(Utf8(code), s[6..])
    else Fail
  }

  /** A string, from behind its opening quote. */
  function ParseText(s: string): (r: Parsed<string>)
    ensures r.Parsed? ==> |r.rest| < |s|
    decreases |s|
  {
    if s == "" then Fail
    else if s[0] == '"' then Parsed("", s[1..])
    else if s[0] == '\\' then
      if |s| < 2 then Fail
      else
        match Unescape(s)
        case Fail => Fail
        case Parsed(t, rest) => Prepend(t, ParseText(rest))
    else if s[0] < ' ' then Fail
    else Prepend([s[0]], ParseText(s[1..]))
  }

  function Prepend(t: string, r: Parsed<string>): Parsed<string> {
    match r
    case Fail => Fail
    case Parsed(u, rest) => Parsed(t + u, rest)
  }

  predicate IsDigit(c: char) { '0' <= c <= '9' }

  /** Digits added to a number so far. */
  function Digits(acc: nat, s: string): (r: (nat, string))
    ensures |r.1| <= |s|
    decreases |s|
  {
    if s != "" && IsDigit(s[0]) then Digits(10 * acc + (s[0] as int - '0' as int), s[1..]) else (acc, s)
  }

  function Signed(negative: bool, n: nat): int {
    if negative then -(n as int) else n as int
  }

  /** A number without fraction or exponent, the only kind that stands for a value here. */
  function ParseNumber(s: string): (r: Parsed<Value>)
    ensures r.Parsed? ==> |r.rest| < |s|
  {
    var negative := s != "" && s[0] == '-';
    var t := if negative then s[1..] else s;
    if t == "" || !IsDigit(t[0]) then Fail
    else
      var (n, rest) := if t[0] == '0' then (0, t[1..]) else Digits(t[0] as int - '0' as int, t[1..]);
      if rest != "" && (rest[0] == '.' || rest[0] == 'e' || rest[0] == 'E') then Fail
      else Parsed(Number(Signed(negative, n)), rest)
  }

  function ParseValue(s: string): (r: Parsed<Value>)
    ensures r.Parsed? ==> |r.rest| < |s|
    decreases |s|, 0
  {
    var t := Skip(s);
    if t == "" then Fail
    else if t[0] == '"' then
      match ParseText(t[1..])
      case Fail => Fail
      case Parsed(u, rest) => Parsed(Text(u), rest)
    else if t[0] == '[' then
      var u := Skip(t[1..]);
      if u != "" && u[0] == ']' then Parsed(List([]), u[1..])
      else
        match ParseItems(u)
        case Fail => Fail
        case Parsed(items, rest) => Parsed(List(items), rest)
    else if t[0] == '{' then
      var u := Skip(t[1..]);
      if u != "" && u[0] == '}' then Parsed(Map([]), u[1..])
      else
        match ParseMembers(u)
        case Fail => Fail
        case Parsed(entries, rest) => Parsed(Map(entries), rest)
    else if "null" <= t then Parsed(Null, t[4..])
    else if "true" <= t then Parsed(Bool(true), t[4..])
    else if "false" <= t then Parsed(Bool(false), t[5..])
    else ParseNumber(t)
  }

  /** One or more items, up to the closing bracket. */
  function ParseItems(s: string): (r: Parsed<seq<Value>>)
    ensures r.Parsed? ==> |r.rest| < |s|
    decreases |s|, 1
  {
    match ParseValue(s)
    case Fail => Fail
    case Parsed(x, rest) =>
      var t := Skip(rest);
      if t != "" && t[0] == ']' then Parsed([x], t[1..])
      else if t != "" && t[0] == ',' then
        match ParseItems(t[1..])
        case Fail => Fail
        case Parsed(xs, r) => Parsed([x] + xs, r)
      else Fail
  }

  /** A key and what it stands for. */
  function ParseMember(s: string): (r: Parsed<Entry>)
    ensures r.Parsed? ==> |r.rest| < |s|
    decreases |s|, 1
  {
    var t := Skip(s);
    if t == "" || t[0] != '"' then Fail
    else
      match ParseText(t[1..])
      case Fail => Fail
      case Parsed(key, rest) =>
        var u := Skip(rest);
        if u == "" || u[0] != ':' then Fail
        else
          match ParseValue(u[1..])
          case Fail => Fail
          case Parsed(x, r) => Parsed(Entry(key, x), r)
  }

  /** One or more members, up to the closing brace. */
  function ParseMembers(s: string): (r: Parsed<seq<Entry>>)
    ensures r.Parsed? ==> |r.rest| < |s|
    decreases |s|, 2
  {
    match ParseMember(s)
    case Fail => Fail
    case Parsed(x, rest) =>
      var t := Skip(rest);
      if t != "" && t[0] == '}' then Parsed([x], t[1..])
      else if t != "" && t[0] == ',' then
        match ParseMembers(t[1..])
        case Fail => Fail
        case Parsed(xs, r) => Parsed([x] + xs, r)
      else Fail
  }

  /** A whole text. */
  function Parse(s: string): Parsed<Value> {
    match ParseValue(s)
    case Fail => Fail
    case Parsed(v, rest) => if Skip(rest) == "" then Parsed(v, "") else Fail
  }

  // ---------- what is printed is parsed back ----------

  lemma HexBack(n: nat)
    requires n < 16
    ensures HexValue(HexDigit(n)) == n
  {
  }

  lemma CharBack(c: char, x: string)
    ensures ParseText(EscapedChar(c) + x) == Prepend([c], ParseText(x))
  {
    var s := EscapedChar(c) + x;
    if c == '"' || c == '\\' || c == '\n' || c == '\r' || c == '\t' {
      assert s[2..] == x;
    } else if c < ' ' {
      assert s[6..] == x;
      HexBack(c as int / 16);
      HexBack(c as int % 16);
      assert HexValue('0') == 0;
      assert Unescape(s) == Parsed([c], x);
    } else {
      assert s[1..] == x;
    }
  }

  lemma {:induction false} TextBack(s: string, tail: string)
    ensures ParseText(Escaped(s) + "\"" + tail) == Parsed(s, tail)
  {
    if s == "" {
      assert "" + "\"" + tail == "\"" + tail;
      assert ("\"" + tail)[1..] == tail;
    } else {
      var x := Escaped(s[1..]) + "\"" + tail;
      assert EscapedChar(s[0]) + Escaped(s[1..]) + "\"" + tail == EscapedChar(s[0]) + x;
      CharBack(s[0], x);
      TextBack(s[1..], tail);
      assert [s[0]] + s[1..] == s;
    }
  }

  lemma {:induction false} DecimalBack(n: nat, tail: string)
    ensures Digits(0, Decimal(n) + tail) == Digits(n, tail)
  {
    var d := n % 10;
    var t := [Digit(d)] + tail;
    assert t[1..] == tail;
    if n < 10 {
      assert Decimal(n) + tail == t;
    } else {
      DecimalBack(n / 10, t);
      assert Decimal(n) + tail == Decimal(n / 10) + t;
    }
  }

  lemma {:induction false} DecimalFirst(n: nat)
    ensures IsDigit(Decimal(n)[0]) && (Decimal(n)[0] == '0' ==> n == 0) && (n == 0 ==> Decimal(n) == "0")
  {
    if n >= 10 { DecimalFirst(n / 10); }
  }

  /** What may follow a value without changing it. */
  predicate Clear(tail: string) {
    tail == "" || !(IsDigit(tail[0]) || tail[0] == '.' || tail[0] == 'e' || tail[0] == 'E')
  }

  lemma NumberBack(n: int, tail: string)
    requires Clear(tail)
    ensures ParseNumber(IntText(n) + tail) == Parsed(Number(n), tail)
  {
    var m := if n < 0 then -n else n;
    var t := Decimal(m) + tail;
    DecimalFirst(m);
    DecimalBack(m, tail);
    assert t[0] == Decimal(m)[0];
    if n < 0 {
      assert "-" + Decimal(m) + tail == "-" + t;
      assert ("-" + t)[1..] == t;
    }
    if m == 0 {
      assert t[1..] == tail;
    } else {
      assert Digits(0, t) == Digits(t[0] as int - '0' as int, t[1..]);
    }
  }

  /** Printed values start with something that is not space. */
  lemma FirstChar(v: Value)
    ensures ToJson(v) != "" && !Space(ToJson(v)[0])
    ensures v.Number? ==> ToJson(v)[0] == '-' || IsDigit(ToJson(v)[0])
    ensures ToJson(v)[0] != ']' && ToJson(v)[0] != '}'
  {
    if v.Number? { DecimalFirst(if v.n < 0 then -v.n else v.n); }
  }

  lemma NoSkip(s: string)
    requires s == "" || !Space(s[0])
    ensures Skip(s) == s
  {
  }

  /** Whatever is printed is parsed back, and exactly that much is consumed. */
  lemma {:induction false} ValueBack(v: Value, tail: string)
    requires Clear(tail)
    ensures ParseValue(ToJson(v) + tail) == Parsed(v, tail)
    decreases v, Width(v) + 2
  {
    hide ParseText, ParseNumber, ParseItems, ParseMembers, Escaped, Items, Members, IntText;
    var s := ToJson(v) + tail;
    FirstChar(v);
    NoSkip(s);
    match v
    case Null => assert s[4..] == tail;
    case Bool(b) => assert b ==> s[4..] == tail; assert !b ==> s[5..] == tail; assert !b ==> s[0] == 'f';
    case Number(n) =>
      NumberBack(n, tail);
    case Text(t) =>
      assert s[1..] == Escaped(t) + "\"" + tail;
      TextBack(t, tail);
    case List(items) => ListBack(v, tail);
    case Map(entries) => MapBack(v, tail);
  }

  lemma {:induction false} ListBack(v: Value, tail: string)
    requires v.List?
    ensures ParseValue(ToJson(v) + tail) == Parsed(v, tail)
    decreases v, Width(v) + 1
  {
    var s := ToJson(v) + tail;
    var body := Items(v, 0) + "]" + tail;
    NoSkip(s);
    assert s[1..] == body;
    if v.items == [] {
      assert body == "]" + tail;
      NoSkip(body);
      assert body[1..] == tail;
    } else {
      FirstChar(v.items[0]);
      assert body[0] == ToJson(v.items[0])[0];
      NoSkip(body);
      ItemsBack(v, 0, tail);
      assert v.items[0..] == v.items;
    }
  }

  lemma {:induction false} ItemsBack(v: Value, i: nat, tail: string)
    requires v.List? && i < |v.items|
    ensures ParseItems(Items(v, i) + "]" + tail) == Parsed(v.items[i..], tail)
    decreases v, |v.items| - i
  {
    hide ToJson, ParseValue;
    var x := ToJson(v.items[i]);
    if i + 1 == |v.items| {
      var rest := "]" + tail;
      assert Items(v, i) + "]" + tail == x + rest;
      ValueBack(v.items[i], rest);
      NoSkip(rest);
      assert rest[1..] == tail;
      assert v.items[i..] == [v.items[i]];
    } else {
      var more := Items(v, i + 1) + "]" + tail;
      var rest := "," + more;
      assert Items(v, i) + "]" + tail == x + rest;
      ValueBack(v.items[i], rest);
      NoSkip(rest);
      assert rest[1..] == more;
      ItemsBack(v, i + 1, tail);
      assert v.items[i..] == [v.items[i]] + v.items[i + 1..];
    }
  }

  lemma MemberFirst(e: Entry)
    ensures Member(e) != "" && Member(e)[0] == '"'
  {
  }

  lemma {:induction false} MapBack(v: Value, tail: string)
    requires v.Map?
    ensures ParseValue(ToJson(v) + tail) == Parsed(v, tail)
    decreases v, Width(v) + 1
  {
    var s := ToJson(v) + tail;
    var body := Members(v, 0) + "}" + tail;
    NoSkip(s);
    assert s[1..] == body;
    if v.entries == [] {
      assert body == "}" + tail;
      NoSkip(body);
      assert body[1..] == tail;
    } else {
      MemberFirst(v.entries[0]);
      assert body[0] == Member(v.entries[0])[0];
      NoSkip(body);
      MembersBack(v, 0, tail);
      assert v.entries[0..] == v.entries;
    }
  }

  lemma {:induction false} MemberBack(v: Value, i: nat, rest: string)
    requires v.Map? && i < |v.entries| && Clear(rest)
    ensures ParseMember(Member(v.entries[i]) + rest) == Parsed(v.entries[i], rest)
    decreases v, 0
  {
    hide ToJson, ParseText, ParseValue, Escaped;
    var e := v.entries[i];
    var s := Member(e) + rest;
    var value := ToJson(e.value) + rest;
    assert s[0] == '"';
    NoSkip(s);
    assert s[1..] == Escaped(e.key) + "\"" + (":" + value);
    TextBack(e.key, ":" + value);
    NoSkip(":" + value);
    assert (":" + value)[1..] == value;
    ValueBack(e.value, rest);
  }

  lemma {:induction false} MembersBack(v: Value, i: nat, tail: string)
    requires v.Map? && i < |v.entries|
    ensures ParseMembers(Members(v, i) + "}" + tail) == Parsed(v.entries[i..], tail)
    decreases v, |v.entries| - i
  {
    hide ToJson, ParseMember, ParseValue, Escaped, Member;
    var x := Member(v.entries[i]);
    if i + 1 == |v.entries| {
      var rest := "}" + tail;
      assert Members(v, i) + "}" + tail == x + rest;
      MemberBack(v, i, rest);
      NoSkip(rest);
      assert rest[1..] == tail;
      assert v.entries[i..] == [v.entries[i]];
    } else {
      var more := Members(v, i + 1) + "}" + tail;
      var rest := "," + more;
      assert Members(v, i) + "}" + tail == x + rest;
      MemberBack(v, i, rest);
      NoSkip(rest);
      assert rest[1..] == more;
      MembersBack(v, i + 1, tail);
      assert v.entries[i..] == [v.entries[i]] + v.entries[i + 1..];
    }
  }

  /** Parsing the printed text of any value gives the value, with nothing left over. */
  lemma PrintedIsParsed(v: Value)
    ensures Parse(ToJson(v)) == Parsed(v, "")
  {
    ValueBack(v, "");
    assert ToJson(v) + "" == ToJson(v);
  }
}
