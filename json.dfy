/**
 * The JSON values the application keeps in browser storage, `JSON.stringify`
 * and `JSON.parse` over them, and the round trip that makes a stored blob read
 * back as the value that was written.
 *
 * Numbers are integers. Objects are ordered lists of fields, as JavaScript
 * objects keep insertion order; `Put` is a property assignment.
 */
module Json {
  import opened Wrappers
  import opened Text

  datatype Json =
    | JNull
    | JBool(b: bool)
    | JNum(n: int)
    | JStr(s: string)
    | JArr(items: seq<Json>)
    | JObj(fields: seq<Field>)

  datatype Field = Field(key: string, value: Json)

  datatype JsonError = SyntaxError

  /** JavaScript truthiness of a value. */
  predicate Truthy(j: Json) {
    match j
    case JNull => false
    case JBool(b) => b
    case JNum(n) => n != 0
    case JStr(s) => s != []
    case _ => true
  }

  predicate HasKey(fields: seq<Field>, k: string) {
    exists i :: 0 <= i < |fields| && fields[i].key == k
  }

  /** No key appears twice: what every JavaScript object satisfies. */
  predicate UniqueKeys(fields: seq<Field>) {
    forall i, j :: 0 <= i < j < |fields| ==> fields[i].key != fields[j].key
  }

  /** `obj[k]` for an own property `k`; `None` is `undefined`. */
  function Lookup(fields: seq<Field>, k: string): (r: Option<Json>)
    ensures r.Some? <==> HasKey(fields, k)
    ensures r.Some? ==> exists i :: 0 <= i < |fields| && fields[i] == Field(k, r.value)
  {
    if fields == [] then None
    else if fields[0].key == k then Some(fields[0].value)
    else
      var r := Lookup(fields[1..], k);
      assert forall i :: 0 <= i < |fields| - 1 ==> fields[1..][i] == fields[i + 1];
      r
  }

  /**
   * `obj[k] = v`: an existing property keeps its place and takes the new value,
   * a new one is added last.
   */
  function Put(fields: seq<Field>, k: string, v: Json): (r: seq<Field>)
    ensures HasKey(r, k)
  {
    if fields == [] then
      var r := [Field(k, v)];
      assert r[0].key == k;
      r
    else if fields[0].key == k then
      var r := [Field(k, v)] + fields[1..];
      assert r[0].key == k;
      r
    else
      var rest := Put(fields[1..], k, v);
      var r := [fields[0]] + rest;
      assert HasKey(r, k) by {
        var i :| 0 <= i < |rest| && rest[i].key == k;
        assert r[i + 1] == rest[i];
      }
      r
  }

  lemma {:induction false} HasKeyTail(fields: seq<Field>, k: string)
    requires fields != [] && fields[0].key != k
    ensures HasKey(fields, k) <==> HasKey(fields[1..], k)
  {
    if HasKey(fields, k) {
      var i :| 0 <= i < |fields| && fields[i].key == k;
      assert fields[1..][i - 1].key == k;
    }
    if HasKey(fields[1..], k) {
      var i :| 0 <= i < |fields| - 1 && fields[1..][i].key == k;
      assert fields[i + 1].key == k;
    }
  }

  /** After `obj[k] = v`, `obj[k]` is `v` and every other property reads as before. */
  lemma {:induction false} PutLookup(fields: seq<Field>, k: string, v: Json)
    ensures Lookup(Put(fields, k, v), k) == Some(v)
    ensures forall k' :: k' != k ==> Lookup(Put(fields, k, v), k') == Lookup(fields, k')
  {
    if fields == [] || fields[0].key == k {
    } else {
      PutLookup(fields[1..], k, v);
    }
  }

  /** Assigning a property the object lacks appends it; one it has keeps the length. */
  lemma {:induction false} PutShape(fields: seq<Field>, k: string, v: Json)
    ensures !HasKey(fields, k) ==> Put(fields, k, v) == fields + [Field(k, v)]
    ensures HasKey(fields, k) ==> |Put(fields, k, v)| == |fields|
  {
    if fields == [] {
    } else if fields[0].key == k {
    } else {
      HasKeyTail(fields, k);
      PutShape(fields[1..], k, v);
      if !HasKey(fields, k) {
        assert [fields[0]] + (fields[1..] + [Field(k, v)]) == fields + [Field(k, v)];
      }
    }
  }

  /** Dropping the first field keeps keys unique, and no later key repeats the first. */
  lemma {:induction false} UniqueTail(fields: seq<Field>)
    requires fields != [] && UniqueKeys(fields)
    ensures UniqueKeys(fields[1..]) && !HasKey(fields[1..], fields[0].key)
  {
    var t := fields[1..];
    forall i, j | 0 <= i < j < |t| ensures t[i].key != t[j].key {
      assert t[i] == fields[i + 1] && t[j] == fields[j + 1];
    }
    forall i | 0 <= i < |t| ensures t[i].key != fields[0].key {
      assert t[i] == fields[i + 1];
    }
  }

  /** Putting a field in front of unique fields that lack its key keeps keys unique. */
  lemma {:induction false} UniqueCons(f: Field, rest: seq<Field>)
    requires UniqueKeys(rest) && !HasKey(rest, f.key)
    ensures UniqueKeys([f] + rest)
  {
    var r := [f] + rest;
    forall i, j | 0 <= i < j < |r| ensures r[i].key != r[j].key {
      assert r[j] == rest[j - 1];
      if i > 0 {
        assert r[i] == rest[i - 1];
      }
    }
  }

  /** A property assignment keeps keys unique. */
  lemma {:induction false} PutUnique(fields: seq<Field>, k: string, v: Json)
    requires UniqueKeys(fields)
    ensures UniqueKeys(Put(fields, k, v))
  {
    if fields == [] {
    } else if fields[0].key == k {
      UniqueTail(fields);
      UniqueCons(Field(k, v), fields[1..]);
    } else {
      var rest := Put(fields[1..], k, v);
      UniqueTail(fields);
      PutUnique(fields[1..], k, v);
      PutLookup(fields[1..], k, v);
      assert Lookup(rest, fields[0].key) == Lookup(fields[1..], fields[0].key);
      UniqueCons(fields[0], rest);
    }
  }

  /** Every object inside `j`, at any depth, has unique keys. */
  predicate WellFormed(j: Json) {
    match j
    case JArr(items) => forall x | x in items :: WellFormed(x)
    case JObj(fields) => UniqueKeys(fields) && forall f | f in fields :: WellFormed(f.value)
    case _ => true
  }

  // ---------------------------------------------------------------------------
  // JSON.stringify
  //
  // The text of a value is built in front of the text that follows it, so
  // `Emit(j, rest)` is the text of `j` followed by `rest`.

  /** `JSON.stringify(j)` without indentation. */
  function Stringify(j: Json): (r: string)
    ensures r != [] && !IsJsonSpace(r[0])
  {
    Emit(j, [])
  }

  function Emit(j: Json, rest: string): (r: string)
    ensures r != [] && !IsJsonSpace(r[0])
    decreases j, 1
  {
    match j
    case JNull => "null" + rest
    case JBool(b) => (if b then "true" else "false") + rest
    case JNum(n) => IntToString(n) + rest
    case JStr(s) => "\"" + EmitChars(s, rest)
    case JArr(items) => "[" + (if items == [] then "]" + rest else EmitItems(items, rest))
    case JObj(fields) => "{" + (if fields == [] then "}" + rest else EmitMembers(fields, rest))
  }

  /** Non-empty elements separated by commas, then `]`. */
  function EmitItems(items: seq<Json>, rest: string): (r: string)
    requires items != []
    ensures r != [] && !IsJsonSpace(r[0])
    decreases items, 1
  {
    Emit(items[0], ItemsAfter(items, rest))
  }

  /** What follows the first element: the closing bracket or a comma and the others. */
  function ItemsAfter(items: seq<Json>, rest: string): string
    requires items != []
    decreases items, 0
  {
    if |items| == 1 then "]" + rest else "," + EmitItems(items[1..], rest)
  }

  /** Non-empty `"key":value` members separated by commas, then `}`. */
  function EmitMembers(fields: seq<Field>, rest: string): (r: string)
    requires fields != []
    ensures r != [] && r[0] == '"'
    decreases fields, 1
  {
    "\"" + EmitChars(fields[0].key, ":" + Emit(fields[0].value, MembersAfter(fields, rest)))
  }

  /** What follows the first member: the closing brace or a comma and the others. */
  function MembersAfter(fields: seq<Field>, rest: string): string
    requires fields != []
    decreases fields, 0
  {
    if |fields| == 1 then "}" + rest else "," + EmitMembers(fields[1..], rest)
  }

  /** The escaped characters of a string literal, its closing quote, then `rest`. */
  function EmitChars(s: string, rest: string): string {
    if s == [] then "\"" + rest else EscapeChar(s[0]) + EmitChars(s[1..], rest)
  }

  function HexDigit(d: nat): char
    requires d < 16
  {
    if d < 10 then DigitChar(d) else ('a' as int + d - 10) as char
  }

  /** How `JSON.stringify` writes one character inside a string literal. */
  function EscapeChar(c: char): string {
    if c == '"' then "\\\""
    else if c == '\\' then "\\\\"
    else if c == '\U{8}' then "\\b"
    else if c == '\U{C}' then "\\f"
    else if c == '\n' then "\\n"
    else if c == '\r' then "\\r"
    else if c == '\t' then "\\t"
    else if c < ' ' then "\\u00" + [HexDigit(c as int / 16), HexDigit(c as int % 16)]
    else [c]
  }

  // ---------------------------------------------------------------------------
  // JSON.parse

  predicate IsJsonSpace(c: char) {
    c == ' ' || c == '\t' || c == '\n' || c == '\r'
  }

  function SkipSpace(s: string): (r: string)
    ensures |r| <= |s|
  {
    if s != [] && IsJsonSpace(s[0]) then SkipSpace(s[1..]) else s
  }

  /** `JSON.parse(text)`; a thrown `SyntaxError` is `Err`. */
  function Parse(text: string): (r: Result<Json, JsonError>)
    ensures r.Ok? ==> WellFormed(r.value)
  {
    match ParseValue(SkipSpace(text))
    case Err(e) => Err(e)
    case Ok((v, rest)) => if SkipSpace(rest) == [] then Ok(v) else Err(SyntaxError)
  }

  /** One value at the start of `s`, and the text after it. */
  function ParseValue(s: string): (r: Result<(Json, string), JsonError>)
    ensures r.Ok? ==> |r.value.1| < |s| && WellFormed(r.value.0)
    decreases |s|, 0
  {
    if s == [] then Err(SyntaxError)
    else if s[0] == 'n' then Keyword(s, "null", JNull)
    else if s[0] == 't' then Keyword(s, "true", JBool(true))
    else if s[0] == 'f' then Keyword(s, "false", JBool(false))
    else if s[0] == '"' then
      match ParseChars(s[1..])
      case Err(e) => Err(e)
      case Ok((str, rest)) => Ok((JStr(str), rest))
    else if s[0] == '[' then ParseArray(s[1..])
    else if s[0] == '{' then ParseObject(s[1..])
    else if s[0] == '-' || IsDigit(s[0]) then ParseNumber(s)
    else Err(SyntaxError)
  }

  function Keyword(s: string, word: string, v: Json): (r: Result<(Json, string), JsonError>)
    requires word != [] && WellFormed(v)
    ensures r.Ok? ==> |r.value.1| < |s| && r.value.0 == v
  {
    if StartsWith(s, word) then Ok((v, s[|word|..])) else Err(SyntaxError)
  }

  /** The elements of an array whose `[` has been read. */
  function ParseArray(s: string): (r: Result<(Json, string), JsonError>)
    ensures r.Ok? ==> |r.value.1| < |s| && WellFormed(r.value.0)
    decreases |s|, 2
  {
    var t := SkipSpace(s);
    if t != [] && t[0] == ']' then Ok((JArr([]), t[1..]))
    else ParseItems(t, [])
  }

  function ParseItems(s: string, acc: seq<Json>): (r: Result<(Json, string), JsonError>)
    requires forall x | x in acc :: WellFormed(x)
    ensures r.Ok? ==> |r.value.1| < |s| && WellFormed(r.value.0)
    decreases |s|, 1
  {
    match ParseValue(s)
    case Err(e) => Err(e)
    case Ok((v, rest)) =>
      var t := SkipSpace(rest);
      if t != [] && t[0] == ',' then ParseItems(SkipSpace(t[1..]), acc + [v])
      else if t != [] && t[0] == ']' then Ok((JArr(acc + [v]), t[1..]))
      else Err(SyntaxError)
  }

  /** The members of an object whose `{` has been read. */
  function ParseObject(s: string): (r: Result<(Json, string), JsonError>)
    ensures r.Ok? ==> |r.value.1| < |s| && WellFormed(r.value.0)
    decreases |s|, 3
  {
    var t := SkipSpace(s);
    if t != [] && t[0] == '}' then Ok((JObj([]), t[1..]))
    else ParseMembers(t, [])
  }

  function ParseMembers(s: string, acc: seq<Field>): (r: Result<(Json, string), JsonError>)
    requires WellFormed(JObj(acc))
    ensures r.Ok? ==> |r.value.1| < |s| && WellFormed(r.value.0)
    decreases |s|, 2
  {
    match ParseMember(s)
    case Err(e) => Err(e)
    case Ok((f, rest)) =>
      var w := SkipSpace(rest);
      var acc' := Put(acc, f.key, f.value);
      PutWellFormed(acc, f.key, f.value);
      if w != [] && w[0] == ',' then ParseMembers(SkipSpace(w[1..]), acc')
      else if w != [] && w[0] == '}' then Ok((JObj(acc'), w[1..]))
      else Err(SyntaxError)
  }

  /** One `"key": value` member. */
  function ParseMember(s: string): (r: Result<(Field, string), JsonError>)
    ensures r.Ok? ==> |r.value.1| < |s| && WellFormed(r.value.0.value)
    decreases |s|, 1
  {
    if s == [] || s[0] != '"' then Err(SyntaxError)
    else
      match ParseChars(s[1..])
      case Err(e) => Err(e)
      case Ok((key, rest)) =>
        var t := SkipSpace(rest);
        if t == [] || t[0] != ':' then Err(SyntaxError)
        else
          match ParseValue(SkipSpace(t[1..]))
          case Err(e) => Err(e)
          case Ok((v, rest')) => Ok((Field(key, v), rest'))
  }

  lemma {:induction false} PutWellFormed(fields: seq<Field>, k: string, v: Json)
    requires WellFormed(JObj(fields)) && WellFormed(v)
    ensures WellFormed(JObj(Put(fields, k, v)))
  {
    var r := Put(fields, k, v);
    PutUnique(fields, k, v);
    PutLookup(fields, k, v);
    forall f | f in r ensures WellFormed(f.value) {
      var i :| 0 <= i < |r| && r[i] == f;
      var l := Lookup(r, f.key);
      if f.key == k {
        assert r[i].key == k;
        UniqueLookup(r, i);
      } else {
        UniqueLookup(r, i);
        assert Lookup(fields, f.key) == Some(f.value);
      }
    }
  }

  /** In an object with unique keys, the field at position `i` is what its key looks up. */
  lemma {:induction false} UniqueLookup(fields: seq<Field>, i: int)
    requires UniqueKeys(fields) && 0 <= i < |fields|
    ensures Lookup(fields, fields[i].key) == Some(fields[i].value)
  {
    var r := Lookup(fields, fields[i].key);
    var j :| 0 <= j < |fields| && fields[j] == Field(fields[i].key, r.value);
    assert i == j;
  }

  /** The characters of a string literal whose opening quote has been read. */
  function ParseChars(s: string): (r: Result<(string, string), JsonError>)
    ensures r.Ok? ==> |r.value.1| < |s|
    decreases |s|
  {
    if s == [] then Err(SyntaxError)
    else if s[0] == '"' then Ok(([], s[1..]))
    else if s[0] == '\\' then
      match Unescape(s[1..])
      case Err(e) => Err(e)
      case Ok((c, n)) => Prepend(c, ParseChars(s[1 + n..]))
    else if s[0] < ' ' then Err(SyntaxError)
    else Prepend(s[0], ParseChars(s[1..]))
  }

  function Prepend(c: char, r: Result<(string, string), JsonError>): Result<(string, string), JsonError> {
    match r
    case Err(e) => Err(e)
    case Ok((str, rest)) => Ok(([c] + str, rest))
  }

  predicate IsHexDigit(c: char) {
    IsDigit(c) || 'a' <= c <= 'f' || 'A' <= c <= 'F'
  }

  function HexValue(c: char): (n: nat)
    requires IsHexDigit(c)
    ensures n < 16
  {
    if IsDigit(c) then DigitValue(c)
    else if 'a' <= c <= 'f' then c as int - 'a' as int + 10
    else c as int - 'A' as int + 10
  }

  /**
   * The character an escape sequence stands for, given the text after its
   * backslash, and how many characters the sequence takes after the backslash.
   * A `\u` escape of a UTF-16 surrogate half has no character of its own here.
   */
  function Unescape(s: string): (r: Result<(char, nat), JsonError>)
    ensures r.Ok? ==> 1 <= r.value.1 <= |s|
  {
    if s == [] then Err(SyntaxError)
    else if s[0] == '"' || s[0] == '\\' || s[0] == '/' then Ok((s[0], 1))
    else if s[0] == 'b' then Ok(('\U{8}', 1))
    else if s[0] == 'f' then Ok(('\U{C}', 1))
    else if s[0] == 'n' then Ok(('\n', 1))
    else if s[0] == 'r' then Ok(('\r', 1))
    else if s[0] == 't' then Ok(('\t', 1))
    else if s[0] == 'u' && |s| >= 5 && IsHexDigit(s[1]) && IsHexDigit(s[2]) && IsHexDigit(s[3]) && IsHexDigit(s[4]) then
      var v := HexQuad(HexValue(s[1]), HexValue(s[2]), HexValue(s[3]), HexValue(s[4]));
      if 0xD800 <= v < 0xE000 then Err(SyntaxError) else Ok((v as char, 5))
    else Err(SyntaxError)
  }

  /** The code unit four hexadecimal digits spell. */
  function HexQuad(a: nat, b: nat, c: nat, d: nat): (v: nat)
    requires a < 16 && b < 16 && c < 16 && d < 16
    ensures v < 0x10000
  {
    assert a * 16 + b < 256;
    assert (a * 16 + b) * 16 + c < 4096;
    ((a * 16 + b) * 16 + c) * 16 + d
  }

  /** The number of decimal digits `s` begins with. */
  function DigitRun(s: string): (n: nat)
    ensures n <= |s| && (forall i :: 0 <= i < n ==> IsDigit(s[i]))
    ensures n == |s| || !IsDigit(s[n])
  {
    if s != [] && IsDigit(s[0]) then 1 + DigitRun(s[1..]) else 0
  }

  /**
   * An integer: an optional minus, then `0` or digits without a leading zero.
   * A fraction or an exponent is not read (see the README).
   */
  function ParseNumber(s: string): (r: Result<(Json, string), JsonError>)
    requires s != []
    ensures r.Ok? ==> |r.value.1| < |s| && r.value.0.JNum?
  {
    if s[0] == '-' then
      match ParseNatural(s[1..])
      case Err(e) => Err(e)
      case Ok((m, rest)) => Ok((JNum(-(m as int)), rest))
    else
      match ParseNatural(s)
      case Err(e) => Err(e)
      case Ok((m, rest)) => Ok((JNum(m), rest))
  }

  /** The digits of a number after its sign. */
  function ParseNatural(t: string): (r: Result<(nat, string), JsonError>)
    ensures r.Ok? ==> |r.value.1| < |t|
  {
    if t == [] || !IsDigit(t[0]) then Err(SyntaxError)
    else
      var n := if t[0] == '0' then 1 else DigitRun(t);
      var rest := t[n..];
      if rest != [] && (rest[0] == '.' || rest[0] == 'e' || rest[0] == 'E') then Err(SyntaxError)
      else Ok((DigitsValue(t[..n]), rest))
  }

  // ---------------------------------------------------------------------------
  // The round trip

  /** What may follow a value inside the text `Stringify` writes. */
  predicate Delimited(rest: string) {
    rest == [] || rest[0] == ',' || rest[0] == ']' || rest[0] == '}'
  }

  /** `JSON.parse(JSON.stringify(v))` gives back `v`. */
  lemma {:induction false} ParseStringify(j: Json)
    requires WellFormed(j)
    ensures Parse(Stringify(j)) == Ok(j)
  {
    ValueRoundTrip(j, []);
    NoSpace(Stringify(j));
  }

  lemma {:induction false} NoSpace(s: string)
    requires s != [] && !IsJsonSpace(s[0])
    ensures SkipSpace(s) == s
  {
  }

  /** Reading back the text of any well-formed value stops right after it. */
  lemma {:induction false} ValueRoundTrip(j: Json, rest: string)
    requires WellFormed(j) && Delimited(rest)
    ensures ParseValue(Emit(j, rest)) == Ok((j, rest))
    decreases j, 1
  {
    match j
    case JNull =>
      LiteralRoundTrip(j, rest);
    case JBool(_) =>
      LiteralRoundTrip(j, rest);
    case JNum(n) =>
      NumValueRoundTrip(n, rest);
    case JStr(str) =>
      StringRoundTrip(str, rest);
    case JArr(items) =>
      ArrayRoundTrip(items, rest);
    case JObj(fields) =>
      ObjectRoundTrip(fields, rest);
  }

  lemma {:induction false} KeywordRoundTrip(word: string, v: Json, rest: string)
    requires word != [] && WellFormed(v)
    ensures Keyword(word + rest, word, v) == Ok((v, rest))
  {
    assert (word + rest)[..|word|] == word;
    assert (word + rest)[|word|..] == rest;
  }

  /** `null`, `true` and `false` read back as themselves. */
  lemma LiteralRoundTrip(j: Json, rest: string)
    requires j.JNull? || j.JBool?
    ensures ParseValue(Emit(j, rest)) == Ok((j, rest))
  {
    var word := if j.JNull? then "null" else if j.b then "true" else "false";
    assert Emit(j, rest) == word + rest;
    KeywordRoundTrip(word, j, rest);
  }

  lemma NumValueRoundTrip(n: int, rest: string)
    requires Delimited(rest)
    ensures ParseValue(Emit(JNum(n), rest)) == Ok((JNum(n), rest))
  {
    var s := IntToString(n) + rest;
    assert Emit(JNum(n), rest) == s;
    NumberRoundTrip(n, rest);
    assert s[0] == '-' || IsDigit(s[0]);
  }

  lemma {:induction false} StringRoundTrip(str: string, rest: string)
    ensures ParseValue(Emit(JStr(str), rest)) == Ok((JStr(str), rest))
  {
    var s := Emit(JStr(str), rest);
    assert s[1..] == EmitChars(str, rest);
    CharsRoundTrip(str, rest);
  }

  lemma {:induction false} ArrayRoundTrip(items: seq<Json>, rest: string)
    requires WellFormed(JArr(items)) && Delimited(rest)
    ensures ParseValue(Emit(JArr(items), rest)) == Ok((JArr(items), rest))
    decreases items, 2
  {
    if items == [] {
      OpenBracket("]" + rest);
      assert ("]" + rest)[1..] == rest;
    } else {
      OpenBracket(EmitItems(items, rest));
      ItemsRoundTrip(items, [], rest);
      assert [] + items == items;
    }
  }

  lemma {:induction false} ObjectRoundTrip(fields: seq<Field>, rest: string)
    requires WellFormed(JObj(fields)) && Delimited(rest)
    ensures ParseValue(Emit(JObj(fields), rest)) == Ok((JObj(fields), rest))
    decreases fields, 2
  {
    if fields == [] {
      OpenBrace("}" + rest);
      assert ("}" + rest)[1..] == rest;
    } else {
      OpenBrace(EmitMembers(fields, rest));
      assert WellFormed(JObj([])) && [] + fields == fields;
      MembersRoundTrip(fields, [], rest);
    }
  }

  /** After `[` the parser reads an empty array or the first element. */
  lemma {:induction false} OpenBracket(t: string)
    requires t != [] && !IsJsonSpace(t[0])
    ensures ParseValue("[" + t) == if t[0] == ']' then Ok((JArr([]), t[1..])) else ParseItems(t, [])
  {
    assert ("[" + t)[1..] == t;
    NoSpace(t);
  }

  /** After `{` the parser reads an empty object or the first member. */
  lemma {:induction false} OpenBrace(t: string)
    requires t != [] && !IsJsonSpace(t[0])
    ensures ParseValue("{" + t) == if t[0] == '}' then Ok((JObj([]), t[1..])) else ParseMembers(t, [])
  {
    assert ("{" + t)[1..] == t;
    NoSpace(t);
  }

  /** One step of `ParseItems`: a value, then a comma or the closing bracket. */
  lemma {:induction false} ParseItemsStep(s: string, acc: seq<Json>, v: Json, tail: string)
    requires forall x | x in acc :: WellFormed(x)
    requires ParseValue(s) == Ok((v, tail))
    requires tail != [] && (tail[0] == ',' || tail[0] == ']')
    ensures ParseItems(s, acc) ==
      if tail[0] == ',' then ParseItems(SkipSpace(tail[1..]), acc + [v]) else Ok((JArr(acc + [v]), tail[1..]))
  {
    NoSpace(tail);
  }

  /** Reading the first of `items` after `acc` appends it to `acc`. */
  lemma {:induction false} ItemsNext(acc: seq<Json>, items: seq<Json>)
    requires items != []
    requires forall x | x in items :: WellFormed(x)
    requires forall x | x in acc :: WellFormed(x)
    ensures WellFormed(items[0])
    ensures forall x | x in acc + [items[0]] :: WellFormed(x)
    ensures forall x | x in items[1..] :: WellFormed(x)
    ensures acc + [items[0]] + items[1..] == acc + items
  {
    assert items[0] in items;
    assert forall x | x in items[1..] :: x in items;
  }

  lemma {:induction false} ItemsRoundTrip(items: seq<Json>, acc: seq<Json>, rest: string)
    requires items != [] && Delimited(rest)
    requires forall x | x in items :: WellFormed(x)
    requires forall x | x in acc :: WellFormed(x)
    ensures ParseItems(EmitItems(items, rest), acc) == Ok((JArr(acc + items), rest))
    decreases items, 1
  {
    var tail := ItemsAfter(items, rest);
    ItemsNext(acc, items);
    ValueRoundTrip(items[0], tail);
    ParseItemsStep(EmitItems(items, rest), acc, items[0], tail);
    if |items| == 1 {
      assert tail[1..] == rest;
      assert items == [items[0]];
    } else {
      var next := EmitItems(items[1..], rest);
      assert tail[1..] == next;
      NoSpace(next);
      ItemsRoundTrip(items[1..], acc + [items[0]], rest);
    }
  }

  /** The fields of `acc` are unique and none repeats the key of `f`. */
  lemma {:induction false} AppendFieldWellFormed(acc: seq<Field>, f: Field, fields: seq<Field>)
    requires fields != [] && f == fields[0]
    requires WellFormed(JObj(acc + fields))
    ensures WellFormed(JObj(acc)) && !HasKey(acc, f.key) && WellFormed(f.value)
    ensures WellFormed(JObj(acc + [f] + fields[1..]))
  {
    var all := acc + fields;
    assert all[|acc|] == f;
    assert f in all;
    assert forall i :: 0 <= i < |acc| ==> acc[i] == all[i];
    forall g | g in acc ensures WellFormed(g.value) {
      var i :| 0 <= i < |acc| && acc[i] == g;
      assert all[i] == g;
    }
    forall i | 0 <= i < |acc| ensures acc[i].key != f.key {
      assert acc[i] == all[i];
    }
    assert acc + [f] + fields[1..] == all;
  }

  /** One step of `ParseMembers`: a member, then a comma or the closing brace. */
  lemma {:induction false} ParseMembersStep(s: string, acc: seq<Field>, f: Field, tail: string)
    requires WellFormed(JObj(acc))
    requires ParseMember(s) == Ok((f, tail))
    requires tail != [] && (tail[0] == ',' || tail[0] == '}')
    ensures WellFormed(JObj(Put(acc, f.key, f.value)))
    ensures ParseMembers(s, acc) ==
      if tail[0] == ',' then ParseMembers(SkipSpace(tail[1..]), Put(acc, f.key, f.value))
      else Ok((JObj(Put(acc, f.key, f.value)), tail[1..]))
  {
    NoSpace(tail);
    PutWellFormed(acc, f.key, f.value);
  }

  /** `ParseMember` reads a key, a colon and a value. */
  lemma {:induction false} MemberStep(s: string, key: string, afterKey: string, v: Json, tail: string)
    requires s != [] && s[0] == '"' && ParseChars(s[1..]) == Ok((key, afterKey))
    requires afterKey != [] && afterKey[0] == ':'
    requires ParseValue(SkipSpace(afterKey[1..])) == Ok((v, tail))
    ensures ParseMember(s) == Ok((Field(key, v), tail))
  {
    NoSpace(afterKey);
  }

  /** Reading one member back from its text. */
  lemma {:induction false} MemberRoundTrip(f: Field, tail: string)
    requires WellFormed(f.value) && Delimited(tail)
    ensures ParseMember("\"" + EmitChars(f.key, ":" + Emit(f.value, tail))) == Ok((f, tail))
    decreases f.value, 2
  {
    var afterKey := ":" + Emit(f.value, tail);
    var s := "\"" + EmitChars(f.key, afterKey);
    assert s[1..] == EmitChars(f.key, afterKey);
    CharsRoundTrip(f.key, afterKey);
    assert afterKey[1..] == Emit(f.value, tail);
    NoSpace(Emit(f.value, tail));
    ValueRoundTrip(f.value, tail);
    MemberStep(s, f.key, afterKey, f.value, tail);
  }

  /** Reading the first member of `fields` after `acc` appends it to `acc`. */
  lemma {:induction false} PutNext(acc: seq<Field>, fields: seq<Field>)
    requires fields != [] && WellFormed(JObj(acc + fields))
    ensures WellFormed(JObj(acc)) && WellFormed(fields[0].value)
    ensures Put(acc, fields[0].key, fields[0].value) == acc + [fields[0]]
    ensures WellFormed(JObj(acc + [fields[0]])) && WellFormed(JObj(acc + [fields[0]] + fields[1..]))
    ensures acc + [fields[0]] + fields[1..] == acc + fields
  {
    var f := fields[0];
    AppendFieldWellFormed(acc, f, fields);
    PutShape(acc, f.key, f.value);
    PutWellFormed(acc, f.key, f.value);
  }

  lemma {:induction false} MembersRoundTrip(fields: seq<Field>, acc: seq<Field>, rest: string)
    requires fields != [] && Delimited(rest)
    requires WellFormed(JObj(acc)) && WellFormed(JObj(acc + fields))
    ensures ParseMembers(EmitMembers(fields, rest), acc) == Ok((JObj(acc + fields), rest))
    decreases fields, 1
  {
    var f := fields[0];
    PutNext(acc, fields);
    var tail := MembersAfter(fields, rest);
    MemberRoundTrip(f, tail);
    ParseMembersStep(EmitMembers(fields, rest), acc, f, tail);
    if |fields| == 1 {
      assert tail[1..] == rest;
      assert fields == [f];
    } else {
      var next := EmitMembers(fields[1..], rest);
      assert tail[1..] == next;
      NoSpace(next);
      MembersRoundTrip(fields[1..], acc + [f], rest);
    }
  }

  /** `ParseChars` reads back what `EmitChars` wrote, up to the closing quote. */
  lemma {:induction false} CharsRoundTrip(s: string, rest: string)
    ensures ParseChars(EmitChars(s, rest)) == Ok((s, rest))
    decreases s
  {
    if s == [] {
      assert ("\"" + rest)[1..] == rest;
    } else {
      CharRoundTrip(s[0], EmitChars(s[1..], rest));
      CharsRoundTrip(s[1..], rest);
      assert [s[0]] + s[1..] == s;
    }
  }

  lemma {:induction false} CharRoundTrip(c: char, tail: string)
    ensures ParseChars(EscapeChar(c) + tail) == Prepend(c, ParseChars(tail))
  {
    if c == '"' || c == '\\' || c == '\U{8}' || c == '\U{C}' || c == '\n' || c == '\r' || c == '\t' {
      ShortEscapeRoundTrip(c, tail);
    } else if c < ' ' {
      ControlRoundTrip(c, tail);
    } else {
      var s := EscapeChar(c) + tail;
      assert s[0] == c;
      assert s[1..] == tail;
    }
  }

  lemma ShortEscapeRoundTrip(c: char, tail: string)
    requires c == '"' || c == '\\' || c == '\U{8}' || c == '\U{C}' || c == '\n' || c == '\r' || c == '\t'
    ensures ParseChars(EscapeChar(c) + tail) == Prepend(c, ParseChars(tail))
  {
    var s := EscapeChar(c) + tail;
    assert |EscapeChar(c)| == 2 && s[0] == '\\';
    assert s[1..][0] == EscapeChar(c)[1];
    assert Unescape(s[1..]) == Ok((c, 1));
    assert s[2..] == tail;
  }

  lemma ControlRoundTrip(c: char, tail: string)
    requires c < ' ' && c != '\U{8}' && c != '\U{C}' && c != '\n' && c != '\r' && c != '\t'
    ensures ParseChars(EscapeChar(c) + tail) == Prepend(c, ParseChars(tail))
  {
    var s := EscapeChar(c) + tail;
    var hi, lo := c as int / 16, c as int % 16;
    assert EscapeChar(c) == ['\\', 'u', '0', '0', HexDigit(hi), HexDigit(lo)];
    assert s[..6] == EscapeChar(c);
    assert s[1..][..5] == s[1..6] == EscapeChar(c)[1..];
    assert s[1..][..5] == ['u', '0', '0', HexDigit(hi), HexDigit(lo)];
    assert HexValue(HexDigit(hi)) == hi;
    assert HexValue(HexDigit(lo)) == lo;
    assert Unescape(s[1..]) == Ok((c, 5));
    assert s[6..] == tail;
  }

  lemma {:induction false} NumberRoundTrip(n: int, rest: string)
    requires Delimited(rest)
    ensures ParseNumber(IntToString(n) + rest) == Ok((JNum(n), rest))
  {
    var m: nat := if n < 0 then -n else n;
    var t := NatToString(m) + rest;
    NaturalRoundTrip(m, rest);
    if n < 0 {
      assert IntToString(n) + rest == "-" + t;
      assert ("-" + t)[1..] == t;
    } else {
      assert IntToString(n) + rest == t;
      assert t[0] != '-';
    }
  }

  lemma {:induction false} NaturalRoundTrip(m: nat, rest: string)
    requires Delimited(rest)
    ensures ParseNatural(NatToString(m) + rest) == Ok((m, rest))
  {
    var ds := NatToString(m);
    var t := ds + rest;
    DigitsOfNat(m);
    assert t[0] == ds[0];
    var n := |ds|;
    if ds[0] == '0' {
      assert ds == "0";
    } else {
      DigitRunPrefix(ds, rest);
    }
    assert t[n..] == rest && t[..n] == ds;
  }

  lemma {:induction false} DigitRunPrefix(ds: string, rest: string)
    requires forall i :: 0 <= i < |ds| ==> IsDigit(ds[i])
    requires Delimited(rest)
    ensures DigitRun(ds + rest) == |ds|
    decreases ds
  {
    if ds == [] {
      assert ds + rest == rest;
    } else {
      assert (ds + rest)[1..] == ds[1..] + rest;
      DigitRunPrefix(ds[1..], rest);
    }
  }
}
