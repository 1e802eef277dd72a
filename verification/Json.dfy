/**
  json.dumps with its default separators and ASCII escaping, on values built from null, booleans,
  integers, strings, lists and objects. An object is its list of items in the order in which they are
  dumped, which under sort_keys=True is the order of the keys.
 */
module Json {
  import opened Decimal
  import opened Text
  import opened Wrappers

  /** Strings are sequences of UTF-16 code units, the units in which escapes are written. */
  type Unit = n: int | 0 <= n < 0x10000

  datatype Json =
    | Null
    | Bool(b: bool)
    | Int(n: int)
    | Str(s: seq<Unit>)
    | List(items: seq<Json>)
    | Object(fields: seq<Field>)

  datatype Field = Field(key: seq<Unit>, value: Json)

  function Hex(d: nat): (c: char)
    requires d < 16
  {
    "0123456789abcdef"[d]
  }

  lemma HexUnique(d: nat, e: nat)
    requires d < 16 && e < 16 && Hex(d) == Hex(e)
    ensures d == e
  {
  }

  function Hex2(n: nat): (s: string)
    requires n < 256
    ensures |s| == 2
  {
    [Hex(n / 16), Hex(n % 16)]
  }

  function Hex4(u: Unit): (s: string)
    ensures |s| == 4
  {
    Hex2(u / 256) + Hex2(u % 256)
  }

  /** The letter of a two-character escape, or 'u' for a numeric one. */
  function EscapeLetter(u: Unit): char {
    if u == 34 then '"' else if u == 92 then '\\' else if u == 8 then 'b' else if u == 12 then 'f'
    else if u == 10 then 'n' else if u == 13 then 'r' else if u == 9 then 't' else 'u'
  }

  predicate Plain(u: Unit) {
    32 <= u <= 126 && u != 34 && u != 92
  }

  function EscapeUnit(u: Unit): string {
    if Plain(u) then [u as char]
    else ['\\', EscapeLetter(u)] + (if EscapeLetter(u) == 'u' then Hex4(u) else "")
  }

  /** A string's characters and closing quote, followed by rest. */
  function Quote(s: seq<Unit>, rest: string): string {
    if s == [] then "\"" + rest else EscapeUnit(s[0]) + Quote(s[1..], rest)
  }

  /** The text of a value, followed by rest. */
  function DumpsThen(j: Json, rest: string): string
    decreases j
  {
    match j
    case Null => "null" + rest
    case Bool(b) => (if b then "true" else "false") + rest
    case Int(n) => IntText(n) + rest
    case Str(s) => "\"" + Quote(s, rest)
    case List(items) => "[" + ItemsThen(items, true, "]" + rest)
    case Object(fields) => "{" + FieldsThen(fields, true, "}" + rest)
  }

  function Separator(first: bool): string {
    if first then "" else ", "
  }

  function ItemsThen(items: seq<Json>, first: bool, rest: string): string
    decreases items
  {
    if items == [] then rest
    else Separator(first) + DumpsThen(items[0], ItemsThen(items[1..], false, rest))
  }

  function FieldsThen(fields: seq<Field>, first: bool, rest: string): string
    decreases fields
  {
    if fields == [] then rest
    else
      Separator(first)
      + ("\"" + Quote(fields[0].key, ": " + DumpsThen(fields[0].value, FieldsThen(fields[1..], false, rest))))
  }

  /** json.dumps(j) */
  function Dumps(j: Json): string {
    DumpsThen(j, "")
  }

  // ---- DumpsThen(j, rest) is Dumps(j) followed by rest ----

  lemma {:induction false} QuoteAppend(s: seq<Unit>, x: string, y: string)
    ensures Quote(s, x + y) == Quote(s, x) + y
  {
    if s == [] {
      assert "\"" + (x + y) == ("\"" + x) + y;
    } else {
      QuoteAppend(s[1..], x, y);
    }
  }

  lemma {:induction false} DumpsThenAppend(j: Json, x: string, y: string)
    ensures DumpsThen(j, x + y) == DumpsThen(j, x) + y
    decreases j
  {
    match j
    case Null => assert "null" + (x + y) == ("null" + x) + y;
    case Bool(b) =>
      var t := if b then "true" else "false";
      assert t + (x + y) == (t + x) + y;
    case Int(n) => assert IntText(n) + (x + y) == (IntText(n) + x) + y;
    case Str(s) =>
      QuoteAppend(s, x, y);
      assert "\"" + (Quote(s, x) + y) == ("\"" + Quote(s, x)) + y;
    case List(items) =>
      assert "]" + (x + y) == ("]" + x) + y;
      ItemsThenAppend(items, true, "]" + x, y);
      var t := ItemsThen(items, true, "]" + x);
      assert "[" + (t + y) == ("[" + t) + y;
    case Object(fields) =>
      assert "}" + (x + y) == ("}" + x) + y;
      FieldsThenAppend(fields, true, "}" + x, y);
      var t := FieldsThen(fields, true, "}" + x);
      assert "{" + (t + y) == ("{" + t) + y;
  }

  lemma {:induction false} ItemsThenAppend(items: seq<Json>, first: bool, x: string, y: string)
    ensures ItemsThen(items, first, x + y) == ItemsThen(items, first, x) + y
    decreases items
  {
    if items != [] {
      ItemsThenAppend(items[1..], false, x, y);
      var t := ItemsThen(items[1..], false, x);
      DumpsThenAppend(items[0], t, y);
      var d := DumpsThen(items[0], t);
      assert Separator(first) + (d + y) == (Separator(first) + d) + y;
    }
  }

  lemma {:induction false} FieldsThenAppend(fields: seq<Field>, first: bool, x: string, y: string)
    ensures FieldsThen(fields, first, x + y) == FieldsThen(fields, first, x) + y
    decreases fields
  {
    if fields != [] {
      var f := fields[0];
      FieldsThenAppend(fields[1..], false, x, y);
      var t := FieldsThen(fields[1..], false, x);
      DumpsThenAppend(f.value, t, y);
      var d := DumpsThen(f.value, t);
      assert ": " + (d + y) == (": " + d) + y;
      QuoteAppend(f.key, ": " + d, y);
      var q := "\"" + Quote(f.key, ": " + d);
      assert q + y == "\"" + (Quote(f.key, ": " + d) + y);
      assert Separator(first) + (q + y) == (Separator(first) + q) + y;
    }
  }

  lemma DumpsThenIsDumps(j: Json, rest: string)
    ensures DumpsThen(j, rest) == Dumps(j) + rest
  {
    DumpsThenAppend(j, "", rest);
    assert "" + rest == rest;
  }

  // ---- The text determines the value ----

  /** Equal texts with equally long known fronts have equal fronts and equal rests. */
  lemma Cancel(a: string, b: string, x: string, y: string)
    requires |a| == |b| && a + x == b + y
    ensures a == b && x == y
  {
    assert (a + x)[..|a|] == a && (b + y)[..|b|] == b;
    assert (a + x)[|a|..] == x && (b + y)[|b|..] == y;
  }

  lemma EscapeUnitUnique(u: Unit, v: Unit, x: string, y: string)
    requires EscapeUnit(u) + x == EscapeUnit(v) + y
    ensures u == v && x == y
  {
    var a, b := EscapeUnit(u), EscapeUnit(v);
    assert (a + x)[0] == a[0] && (b + y)[0] == b[0];
    assert Plain(u) == Plain(v);
    if !Plain(u) {
      assert (a + x)[1] == a[1] && (b + y)[1] == b[1];
      assert EscapeLetter(u) == EscapeLetter(v);
      assert |a| == |b|;
    }
    Cancel(a, b, x, y);
    if !Plain(u) && EscapeLetter(u) == 'u' {
      assert a[2..] == Hex4(u) && b[2..] == Hex4(v);
      Hex4Unique(u, v);
    }
  }

  lemma Hex2Unique(m: nat, n: nat)
    requires m < 256 && n < 256 && Hex2(m) == Hex2(n)
    ensures m == n
  {
    hide Hex;
    assert Hex2(m)[0] == Hex2(n)[0] && Hex2(m)[1] == Hex2(n)[1];
    HexUnique(m / 16, n / 16);
    HexUnique(m % 16, n % 16);
  }

  lemma Hex4Unique(u: Unit, v: Unit)
    requires Hex4(u) == Hex4(v)
    ensures u == v
  {
    hide Hex2;
    Cancel(Hex2(u / 256), Hex2(v / 256), Hex2(u % 256), Hex2(v % 256));
    Hex2Unique(u / 256, v / 256);
    Hex2Unique(u % 256, v % 256);
  }

  lemma QuoteStart(s: seq<Unit>, x: string)
    ensures Quote(s, x) != "" && (Quote(s, x)[0] == '"' <==> s == [])
  {
  }

  lemma {:induction false} QuoteUnique(s: seq<Unit>, t: seq<Unit>, x: string, y: string)
    requires Quote(s, x) == Quote(t, y)
    ensures s == t && x == y
  {
    QuoteStart(s, x);
    QuoteStart(t, y);
    if s == [] {
      Cancel("\"", "\"", x, y);
    } else {
      EscapeUnitUnique(s[0], t[0], Quote(s[1..], x), Quote(t[1..], y));
      QuoteUnique(s[1..], t[1..], x, y);
      assert s == [s[0]] + s[1..] && t == [t[0]] + t[1..];
    }
  }

  /** The first character tells the kind of value. */
  function Kind(j: Json): char {
    match j
    case Null => 'n'
    case Bool(b) => if b then 't' else 'f'
    case Int(_) => '0'
    case Str(_) => '"'
    case List(_) => '['
    case Object(_) => '{'
  }

  lemma DumpsStart(j: Json, x: string)
    ensures var s := DumpsThen(j, x);
            s != "" && (if j.Int? then IsDigit(s[0]) || s[0] == '-' else s[0] == Kind(j))
  {
    if j.Int? {
      IntTextParses(j.n);
      assert IntText(j.n)[0] in IntText(j.n);
    }
  }

  lemma {:induction false} DumpsUnique(a: Json, b: Json, x: string, y: string)
    requires !StartsWithDigit(x) && !StartsWithDigit(y)
    requires DumpsThen(a, x) == DumpsThen(b, y)
    ensures a == b && x == y
    decreases a
  {
    DumpsStart(a, x);
    DumpsStart(b, y);
    match a
    case Null => Cancel("null", "null", x, y);
    case Bool(p) =>
      var t := if p then "true" else "false";
      Cancel(t, t, x, y);
    case Int(n) => IntTextUnique(n, b.n, x, y);
    case Str(s) =>
      Cancel("\"", "\"", Quote(s, x), Quote(b.s, y));
      QuoteUnique(s, b.s, x, y);
    case List(items) =>
      Cancel("[", "[", ItemsThen(items, true, "]" + x), ItemsThen(b.items, true, "]" + y));
      ItemsUnique(items, b.items, true, "]" + x, "]" + y);
      Cancel("]", "]", x, y);
    case Object(fields) =>
      Cancel("{", "{", FieldsThen(fields, true, "}" + x), FieldsThen(b.fields, true, "}" + y));
      FieldsUnique(fields, b.fields, true, "}" + x, "}" + y);
      Cancel("}", "}", x, y);
  }

  /** The rest after a list's items starts with its closing bracket. */
  predicate Closes(s: string) {
    s != "" && (s[0] == ']' || s[0] == '}')
  }

  lemma ItemsThenStart(items: seq<Json>, first: bool, x: string)
    requires Closes(x)
    ensures var s := ItemsThen(items, first, x);
            s != "" && (if items == [] then Closes(s) else !Closes(s) && (first || s[0] == ','))
            && (!first ==> !StartsWithDigit(s))
  {
    if items != [] {
      DumpsStart(items[0], ItemsThen(items[1..], false, x));
    }
  }

  lemma {:induction false} ItemsUnique(xs: seq<Json>, ys: seq<Json>, first: bool, x: string, y: string)
    requires Closes(x) && Closes(y)
    requires ItemsThen(xs, first, x) == ItemsThen(ys, first, y)
    ensures xs == ys && x == y
    decreases xs
  {
    ItemsThenStart(xs, first, x);
    ItemsThenStart(ys, first, y);
    if xs != [] {
      var s, t := ItemsThen(xs[1..], false, x), ItemsThen(ys[1..], false, y);
      ItemsThenStart(xs[1..], false, x);
      ItemsThenStart(ys[1..], false, y);
      Cancel(Separator(first), Separator(first), DumpsThen(xs[0], s), DumpsThen(ys[0], t));
      DumpsUnique(xs[0], ys[0], s, t);
      ItemsUnique(xs[1..], ys[1..], false, x, y);
      assert xs == [xs[0]] + xs[1..] && ys == [ys[0]] + ys[1..];
    }
  }

  lemma FieldsThenStart(fields: seq<Field>, first: bool, x: string)
    requires Closes(x)
    ensures var s := FieldsThen(fields, first, x);
            s != "" && (if fields == [] then Closes(s) else !Closes(s)) && !StartsWithDigit(s)
  {
  }

  lemma {:induction false} FieldsUnique(xs: seq<Field>, ys: seq<Field>, first: bool, x: string, y: string)
    requires Closes(x) && Closes(y)
    requires FieldsThen(xs, first, x) == FieldsThen(ys, first, y)
    ensures xs == ys && x == y
    decreases xs
  {
    FieldsThenStart(xs, first, x);
    FieldsThenStart(ys, first, y);
    if xs != [] {
      var f, g := xs[0], ys[0];
      var s, t := FieldsThen(xs[1..], false, x), FieldsThen(ys[1..], false, y);
      FieldsThenStart(xs[1..], false, x);
      FieldsThenStart(ys[1..], false, y);
      var d, e := ": " + DumpsThen(f.value, s), ": " + DumpsThen(g.value, t);
      Cancel(Separator(first), Separator(first), "\"" + Quote(f.key, d), "\"" + Quote(g.key, e));
      Cancel("\"", "\"", Quote(f.key, d), Quote(g.key, e));
      QuoteUnique(f.key, g.key, d, e);
      Cancel(": ", ": ", DumpsThen(f.value, s), DumpsThen(g.value, t));
      DumpsUnique(f.value, g.value, s, t);
      FieldsUnique(xs[1..], ys[1..], false, x, y);
      assert xs == [xs[0]] + xs[1..] && ys == [ys[0]] + ys[1..];
    }
  }

  /** json.dumps is injective. */
  lemma DumpsInjective(a: Json, b: Json)
    requires Dumps(a) == Dumps(b)
    ensures a == b
  {
    DumpsUnique(a, b, "", "");
  }

  // ---- What the text is ----

  function Texts(items: seq<Json>): (r: seq<string>)
    ensures |r| == |items|
    decreases items
  {
    if items == [] then [] else [Dumps(items[0])] + Texts(items[1..])
  }

  function FieldText(f: Field): string {
    "\"" + Quote(f.key, "") + ": " + Dumps(f.value)
  }

  function FieldTexts(fields: seq<Field>): (r: seq<string>)
    ensures |r| == |fields|
  {
    if fields == [] then [] else [FieldText(fields[0])] + FieldTexts(fields[1..])
  }

  lemma ItemsNext(items: seq<Json>, first: bool, rest: string)
    requires items != []
    ensures ItemsThen(items, first, rest) == Separator(first) + (Dumps(items[0]) + ItemsThen(items[1..], false, rest))
    ensures Texts(items) == [Dumps(items[0])] + Texts(items[1..])
  {
    hide Separator, DumpsThen, Dumps;
    DumpsThenIsDumps(items[0], ItemsThen(items[1..], false, rest));
  }

  lemma FieldsNext(fields: seq<Field>, first: bool, rest: string)
    requires fields != []
    ensures FieldsThen(fields, first, rest)
         == Separator(first) + (FieldText(fields[0]) + FieldsThen(fields[1..], false, rest))
    ensures FieldTexts(fields) == [FieldText(fields[0])] + FieldTexts(fields[1..])
  {
    hide Separator, DumpsThen, Quote;
    FieldIsText(fields[0], FieldsThen(fields[1..], false, rest));
  }

  lemma CommaIsSeparator()
    ensures Separator(false) == ", " && Separator(true) == ""
  {
  }

  lemma JoinMore(d: string, more: seq<string>, rest: string)
    ensures more == [] ==> Join([d] + more, ", ") + rest == d + rest
    ensures more != [] ==> Join([d] + more, ", ") + rest == d + (", " + (Join(more, ", ") + rest))
  {
    assert ([d] + more)[1..] == more;
    if more != [] {
      var tail := Join(more, ", ");
      assert (d + (", " + tail)) + rest == d + (", " + (tail + rest));
    }
  }

  lemma {:induction false} ItemsAreJoined(items: seq<Json>, first: bool, rest: string)
    requires items != []
    ensures ItemsThen(items, first, rest) == Separator(first) + (Join(Texts(items), ", ") + rest)
    decreases |items|
  {
    hide Separator, DumpsThen, Dumps, ItemsThen, Texts, Join;
    ItemsNext(items, first, rest);
    NoItems(rest);
    JoinMore(Dumps(items[0]), Texts(items[1..]), rest);
    if |items| > 1 {
      CommaIsSeparator();
      ItemsAreJoined(items[1..], false, rest);
    }
  }

  lemma NoItems(rest: string)
    ensures ItemsThen([], false, rest) == rest && Texts([]) == []
    ensures FieldsThen([], false, rest) == rest && FieldTexts([]) == []
  {
  }

  lemma {:induction false} FieldsAreJoined(fields: seq<Field>, first: bool, rest: string)
    requires fields != []
    ensures FieldsThen(fields, first, rest) == Separator(first) + (Join(FieldTexts(fields), ", ") + rest)
    decreases |fields|
  {
    hide Separator, FieldText, FieldsThen, FieldTexts, Join;
    FieldsNext(fields, first, rest);
    NoItems(rest);
    JoinMore(FieldText(fields[0]), FieldTexts(fields[1..]), rest);
    if |fields| > 1 {
      CommaIsSeparator();
      FieldsAreJoined(fields[1..], false, rest);
    }
  }

  lemma FieldIsText(f: Field, rest: string)
    ensures "\"" + Quote(f.key, ": " + DumpsThen(f.value, rest)) == FieldText(f) + rest
  {
    hide Quote, DumpsThen, Dumps;
    DumpsThenIsDumps(f.value, rest);
    var d := Dumps(f.value);
    QuoteAppend(f.key, "", ": " + (d + rest));
    assert "" + (": " + (d + rest)) == ": " + (d + rest);
    var q := Quote(f.key, "");
    assert "\"" + (q + (": " + (d + rest))) == ("\"" + q + ": " + d) + rest;
  }

  /** json.dumps, form by form: parts separated by ", ", and a field is its key, ": " and its value. */
  lemma DumpsExactly(j: Json)
    ensures j.Null? ==> Dumps(j) == "null"
    ensures j.Bool? ==> Dumps(j) == if j.b then "true" else "false"
    ensures j.Int? ==> Dumps(j) == IntText(j.n)
    ensures j.Str? ==> Dumps(j) == "\"" + Quote(j.s, "")
    ensures j.List? ==> Dumps(j) == if j.items == [] then "[]" else "[" + Join(Texts(j.items), ", ") + "]"
    ensures j.Object? ==> Dumps(j) == if j.fields == [] then "{}" else "{" + Join(FieldTexts(j.fields), ", ") + "}"
  {
    hide IntText, Quote, Join, Texts, FieldTexts;
    match j
    case List(items) =>
      if items != [] {
        ItemsAreJoined(items, true, "]" + "");
        assert "[" + ("" + (Join(Texts(items), ", ") + "]")) == "[" + Join(Texts(items), ", ") + "]";
      }
    case Object(fields) =>
      if fields != [] {
        FieldsAreJoined(fields, true, "}" + "");
        assert "{" + ("" + (Join(FieldTexts(fields), ", ") + "}")) == "{" + Join(FieldTexts(fields), ", ") + "}";
      }
    case _ =>
  }

  /** Printable ASCII stands for itself, except quote and backslash; everything else is escaped. */
  lemma EscapeExactly(u: Unit)
    ensures 32 <= u <= 126 && u != 34 && u != 92 ==> EscapeUnit(u) == [u as char]
    ensures !(32 <= u <= 126 && u != 34 && u != 92) ==> EscapeUnit(u)[0] == '\\' && |EscapeUnit(u)| in [2, 6]
  {
  }

  // ---- Reading strings back, by section 7 of RFC 8259 ----

  function HexValue(c: char): (d: Option<nat>)
    ensures d.Some? ==> d.value < 16
  {
    if '0' <= c <= '9' then Some(c as nat - '0' as nat)
    else if 'a' <= c <= 'f' then Some(c as nat - 'a' as nat + 10)
    else if 'A' <= c <= 'F' then Some(c as nat - 'A' as nat + 10)
    else None
  }

  /** The code unit of an escape, after its backslash, and the number of characters it takes. */
  function Unescape(s: string): Option<(Unit, nat)> {
    if s == "" then None
    else
      match s[0]
      case '"' => Some((34, 1))
      case '\\' => Some((92, 1))
      case '/' => Some((47, 1))
      case 'b' => Some((8, 1))
      case 'f' => Some((12, 1))
      case 'n' => Some((10, 1))
      case 'r' => Some((13, 1))
      case 't' => Some((9, 1))
      case 'u' =>
        if |s| < 5 then None
        else
          var a, b, c, d := HexValue(s[1]), HexValue(s[2]), HexValue(s[3]), HexValue(s[4]);
          if a.None? || b.None? || c.None? || d.None? then None
          else Some((((a.value * 16 + b.value) * 16 + c.value) * 16 + d.value, 5))
      case _ => None
  }

  /** The code units up to the closing quote, and what follows it. */
  function Unquote(s: string): Option<(seq<Unit>, string)>
    decreases |s|
  {
    if s == "" then None
    else if s[0] == '"' then Some(([], s[1..]))
    else if s[0] == '\\' then
      var e := Unescape(s[1..]);
      if e.None? || |s| < 1 + e.value.1 then None
      else
        var more := Unquote(s[1 + e.value.1..]);
        if more.None? then None else Some(([e.value.0] + more.value.0, more.value.1))
    else if !(32 <= s[0] as int < 0x10000) then None
    else
      var more := Unquote(s[1..]);
      if more.None? then None else Some(([s[0] as int] + more.value.0, more.value.1))
  }

  lemma HexReadsBack(d: nat)
    requires d < 16
    ensures HexValue(Hex(d)) == Some(d)
  {
  }

  lemma Hex4ReadsBack(u: Unit, rest: string)
    ensures Unescape("u" + Hex4(u) + rest) == Some((u, 5))
  {
    hide Hex, HexValue;
    var s, m, n := "u" + Hex4(u) + rest, u / 256, u % 256;
    HexReadsBack(m / 16);
    HexReadsBack(m % 16);
    HexReadsBack(n / 16);
    HexReadsBack(n % 16);
    assert s[0] == 'u' && s[1] == Hex(m / 16) && s[2] == Hex(m % 16) && s[3] == Hex(n / 16) && s[4] == Hex(n % 16);
    assert u == ((m / 16 * 16 + m % 16) * 16 + n / 16) * 16 + n % 16;
  }

  lemma EscapeReadsBack(u: Unit, rest: string)
    requires !Plain(u)
    ensures Unescape(EscapeUnit(u)[1..] + rest) == Some((u, |EscapeUnit(u)| - 1))
  {
    hide Hex4;
    var e := EscapeUnit(u)[1..];
    assert (e + rest)[0] == EscapeLetter(u);
    if EscapeLetter(u) == 'u' {
      Hex4ReadsBack(u, rest);
      assert e == "u" + Hex4(u);
    }
  }

  lemma UnitReadsBack(u: Unit, rest: string)
    ensures var more := Unquote(rest);
            Unquote(EscapeUnit(u) + rest) == if more.None? then None else Some(([u] + more.value.0, more.value.1))
  {
    hide Hex4;
    var e := EscapeUnit(u);
    var s := e + rest;
    assert s[0] == e[0] && s[|e|..] == rest;
    if !Plain(u) {
      hide Unescape;
      EscapeReadsBack(u, rest);
      assert s[1..] == e[1..] + rest;
    }
  }

  /** A dumped string reads back, unit for unit, with whatever follows it. */
  lemma {:induction false} QuoteReadsBack(s: seq<Unit>, rest: string)
    ensures Unquote(Quote(s, rest)) == Some((s, rest))
  {
    if s == [] {
      assert ("\"" + rest)[0] == '"' && ("\"" + rest)[1..] == rest;
    } else {
      QuoteReadsBack(s[1..], rest);
      UnitReadsBack(s[0], Quote(s[1..], rest));
      assert s == [s[0]] + s[1..];
    }
  }

  // ---- One byte a character ----

  predicate Ascii(s: string) {
    forall i | 0 <= i < |s| :: s[i] as int < 128
  }

  lemma AsciiAppend(a: string, b: string)
    requires Ascii(a) && Ascii(b)
    ensures Ascii(a + b)
  {
  }

  lemma UnitIsAscii(u: Unit)
    ensures Ascii(EscapeUnit(u))
  {
    assert forall d: nat | d < 16 :: Hex(d) as int < 128;
  }

  lemma {:induction false} QuoteIsAscii(s: seq<Unit>, rest: string)
    requires Ascii(rest)
    ensures Ascii(Quote(s, rest))
  {
    hide EscapeUnit;
    if s != [] {
      QuoteIsAscii(s[1..], rest);
      UnitIsAscii(s[0]);
      AsciiAppend(EscapeUnit(s[0]), Quote(s[1..], rest));
    }
  }

  /** So the length of the text is the length of its encoding. */
  lemma {:induction false} DumpsIsAscii(j: Json, rest: string)
    requires Ascii(rest)
    ensures Ascii(DumpsThen(j, rest))
    decreases j
  {
    hide IntText, Quote;
    match j
    case Null =>
    case Bool(_) =>
    case Int(n) =>
      IntTextParses(n);
      assert forall i | 0 <= i < |IntText(n)| :: IntText(n)[i] in IntText(n);
    case Str(s) => QuoteIsAscii(s, rest);
    case List(items) => ItemsAreAscii(items, true, "]" + rest);
    case Object(fields) => FieldsAreAscii(fields, true, "}" + rest);
  }

  lemma {:induction false} ItemsAreAscii(items: seq<Json>, first: bool, rest: string)
    requires Ascii(rest)
    ensures Ascii(ItemsThen(items, first, rest))
    decreases items
  {
    if items != [] {
      ItemsAreAscii(items[1..], false, rest);
      DumpsIsAscii(items[0], ItemsThen(items[1..], false, rest));
    }
  }

  lemma {:induction false} FieldsAreAscii(fields: seq<Field>, first: bool, rest: string)
    requires Ascii(rest)
    ensures Ascii(FieldsThen(fields, first, rest))
    decreases fields
  {
    hide Quote;
    if fields != [] {
      FieldsAreAscii(fields[1..], false, rest);
      DumpsIsAscii(fields[0].value, FieldsThen(fields[1..], false, rest));
      var d := ": " + DumpsThen(fields[0].value, FieldsThen(fields[1..], false, rest));
      QuoteIsAscii(fields[0].key, d);
      AsciiAppend(Separator(first), "\"" + Quote(fields[0].key, d));
    }
  }
}
