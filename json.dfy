/**
 * The part of serde_json's `Value` that the backup tool relies on: indexing
 * an object by key, reading a string with `as_str`, and the compact text
 * that `to_string` produces.
 */
module Json {
  import opened Base
  import Text

  /**
   * A JSON value. Object members are kept in the order they are rendered;
   * numbers are integers.
   */
  datatype Json =
    | Null
    | Bool(b: bool)
    | Num(n: int)
    | Str(s: string)
    | Arr(items: seq<Json>)
    | Obj(members: seq<(string, Json)>)

  /** Member `i` is the first one named `key`. */
  predicate FirstNamed(members: seq<(string, Json)>, key: string, i: int)
  {
    0 <= i < |members| && members[i].0 == key && forall j :: 0 <= j < i ==> members[j].0 != key
  }

  /** The value of the first member named `key`, Null when there is none. */
  function Lookup(members: seq<(string, Json)>, key: string): (r: Json)
    ensures r != Null ==> exists i :: 0 <= i < |members| && members[i] == (key, r)
  {
    if members == [] then Null
    else if members[0].0 == key then members[0].1
    else Lookup(members[1..], key)
  }

  /** The first member named `key` supplies the value; with none, the result is Null. */
  lemma {:induction false} LookupFirst(members: seq<(string, Json)>, key: string)
    ensures forall i :: FirstNamed(members, key, i) ==> Lookup(members, key) == members[i].1
    ensures (forall i :: 0 <= i < |members| ==> members[i].0 != key) ==> Lookup(members, key) == Null
  {
    if members != [] && members[0].0 != key {
      var tail := members[1..];
      LookupFirst(tail, key);
      forall i | FirstNamed(members, key, i)
        ensures Lookup(members, key) == members[i].1
      {
        assert FirstNamed(tail, key, i - 1);
      }
      if forall i :: 0 <= i < |members| ==> members[i].0 != key {
        assert forall i :: 0 <= i < |tail| ==> tail[i].0 != key by {
          forall i | 0 <= i < |tail|
            ensures tail[i].0 != key
          {
            assert tail[i] == members[i + 1];
          }
        }
      }
    }
  }

  /** `value[key]`: the member's value on an object that has it, Null on anything else. */
  function Get(v: Json, key: string): (r: Json)
    ensures r != Null ==> v.Obj? && exists i :: 0 <= i < |v.members| && v.members[i] == (key, r)
  {
    if v.Obj? then Lookup(v.members, key) else Null
  }

  /**
   * Indexing an object yields the value of its first member named `key`, and
   * Null when no member has that name; indexing any other value yields Null.
   */
  lemma GetMember(v: Json, key: string)
    ensures v.Obj? ==> forall i :: FirstNamed(v.members, key, i) ==> Get(v, key) == v.members[i].1
    ensures !v.Obj? || (forall i :: 0 <= i < |v.members| ==> v.members[i].0 != key) ==> Get(v, key) == Null
  {
    if v.Obj? {
      LookupFirst(v.members, key);
    }
  }

  /** `value.as_str()`: the text of a JSON string, None for every other kind of value. */
  function AsStr(v: Json): (r: Option<string>)
    ensures r.Some? <==> v.Str?
    ensures r.Some? ==> v == Str(r.value)
  {
    if v.Str? then Some(v.s) else None
  }

  function DigitChar(d: nat): (c: char)
    requires d < 10
    ensures '0' <= c <= '9' && c as int - '0' as int == d
  {
    ('0' as int + d) as char
  }

  predicate IsDigit(c: char)
  {
    '0' <= c <= '9'
  }

  /** The shortest decimal numeral of `n`. */
  function Digits(n: nat): (s: string)
    ensures |s| > 0
    ensures forall i :: 0 <= i < |s| ==> IsDigit(s[i])
  {
    if n < 10 then [DigitChar(n)] else Digits(n / 10) + [DigitChar(n % 10)]
  }

  /** The number a string of decimal digits denotes. */
  function DecimalValue(s: string): nat
    requires forall i :: 0 <= i < |s| ==> IsDigit(s[i])
  {
    if s == [] then 0
    else
      var last := s[|s| - 1];
      assert IsDigit(last);
      DecimalValue(s[..|s| - 1]) * 10 + (last as int - '0' as int)
  }

  /** Reading a numeral back gives the number it was written from. */
  lemma {:induction false} DecimalValueDigits(n: nat)
    ensures DecimalValue(Digits(n)) == n
  {
    if n >= 10 {
      var s := Digits(n);
      assert s[..|s| - 1] == Digits(n / 10);
      DecimalValueDigits(n / 10);
    }
  }

  /** Distinct numbers have distinct numerals. */
  lemma DigitsInjective(m: nat, n: nat)
    requires Digits(m) == Digits(n)
    ensures m == n
  {
    DecimalValueDigits(m);
    DecimalValueDigits(n);
  }

  function HexDigit(d: nat): (c: char)
    requires d < 16
  {
    if d < 10 then DigitChar(d) else ('a' as int + d - 10) as char
  }

  /** How serde_json writes one character inside a string literal. */
  function EscapeChar(c: char): string
  {
    if c == '"' then "\\\""
    else if c == '\\' then "\\\\"
    else if c == '\n' then "\\n"
    else if c == '\r' then "\\r"
    else if c == '\t' then "\\t"
    else if c as int == 0x08 then "\\b"
    else if c as int == 0x0C then "\\f"
    else if c as int < 0x20 then "\\u00" + [HexDigit(c as int / 16), HexDigit(c as int % 16)]
    else [c]
  }

  function Escape(s: string): string
  {
    if s == [] then "" else EscapeChar(s[0]) + Escape(s[1..])
  }

  /** A JSON string literal for `s`. */
  function Quote(s: string): (q: string)
    ensures |q| >= 2 && q[0] == '"' && q[|q| - 1] == '"'
  {
    "\"" + Escape(s) + "\""
  }

  /** `value.to_string()`: the compact JSON text of a value. */
  function Render(v: Json): string
    decreases v
  {
    match v
    case Null => "null"
    case Bool(b) => if b then "true" else "false"
    case Num(n) => if n < 0 then "-" + Digits(-n) else Digits(n)
    case Str(s) => Quote(s)
    case Arr(items) =>
      "[" + Text.Join(seq(|items|, i requires 0 <= i < |items| => Render(items[i])), ",") + "]"
    case Obj(members) =>
      "{" + Text.Join(seq(|members|, i requires 0 <= i < |members| =>
                        Quote(members[i].0) + ":" + Render(members[i].1)), ",") + "}"
  }

  /**
   * The only values whose text is a plain numeral are the non-negative
   * numbers, and the numeral names the number: every other kind of value is
   * rendered starting with a letter, a sign, a quote or a bracket.
   */
  lemma RenderNumeral(v: Json, n: nat)
    requires Render(v) == Digits(n)
    ensures v == Num(n)
  {
    var s := Digits(n);
    assert IsDigit(s[0]);
    match v
    case Num(m) =>
      if m >= 0 {
        DigitsInjective(m, n);
      }
    case _ =>
  }
}
