/** JSON values as `jsonb` stores them, their canonical text, and a reader of that text. */
module Json {
  import opened Wrappers
  import opened JsonString
  import Text

  /** A number is `unscaled / 10^scale`, shown with exactly `scale` fraction digits;
      an object is a finite map, so its keys are unique and unordered. */
  datatype Json =
    | Null
    | Bool(b: bool)
    | Num(unscaled: int, scale: nat)
    | Str(s: string)
    | Arr(items: seq<Json>)
    | Obj(members: map<string, Json>)

  // ---------------------------------------------------------------- numbers

  predicate Digits(s: string)
  {
    forall i | 0 <= i < |s| :: '0' <= s[i] <= '9'
  }

  function PrintNat(n: nat): string
  {
    (if n < 10 then [] else PrintNat(n / 10)) + [('0' as int + n % 10) as char]
  }

  function ZeroFill(s: string, width: nat): (r: string)
    ensures if |s| >= width then r == s else |r| == width
    decreases width - |s|
  {
    if |s| >= width then s else ZeroFill(['0'] + s, width)
  }

  /** The text of a nonnegative decimal: the last `scale` digits follow the point. */
  function PrintMagnitude(n: nat, scale: nat): string
  {
    var d := ZeroFill(PrintNat(n), scale + 1);
    if scale == 0 then d else d[..|d| - scale] + "." + d[|d| - scale..]
  }

  function PrintNumber(unscaled: int, scale: nat): string
  {
    if unscaled < 0 then "-" + PrintMagnitude(-unscaled, scale) else PrintMagnitude(unscaled, scale)
  }

  // ---------------------------------------------------------------- key order

  ghost predicate StrictlyOrdered(ks: seq<string>)
  {
    forall i, j :: 0 <= i < j < |ks| ==> ks[i] != ks[j] && Text.Leq(ks[i], ks[j])
  }

  lemma {:induction false} LeastKeyExists(s: set<string>)
    requires s != {}
    ensures exists k :: k in s && forall x | x in s :: Text.Leq(k, x)
  {
    hide Text.Leq;
    var x :| x in s;
    Text.LeqReflexive(x);
    if s == {x} {
      assert forall y | y in s :: Text.Leq(x, y);
    } else {
      var rest := s - {x};
      assert rest != {};
      LeastKeyExists(rest);
      var y :| y in rest && forall z | z in rest :: Text.Leq(y, z);
      if Text.Leq(y, x) {
        assert forall z | z in s :: Text.Leq(y, z);
      } else {
        Text.LeqTotal(x, y);
        forall z | z in s ensures Text.Leq(x, z) {
          if z != x { Text.LeqTransitive(x, y, z); }
        }
      }
    }
  }

  /** `ORDER BY key COLLATE "C"` over the keys of an object. */
  function SortedKeys(s: set<string>): (r: seq<string>)
    ensures forall k :: k in r <==> k in s
    ensures StrictlyOrdered(r)
  {
    if s == {} then []
    else
      LeastKeyExists(s);
      Text.LeqAntisymmetricAll();
      var k :| k in s && forall x | x in s :: Text.Leq(k, x);
      [k] + SortedKeys(s - {k})
  }

  // ---------------------------------------------------------------- printing

  function Print(v: Json): string
    decreases v, 1, 0
  {
    match v
    case Null => "null"
    case Bool(b) => if b then "true" else "false"
    case Num(u, scale) => PrintNumber(u, scale)
    case Str(s) => Quote(s)
    case Arr(_) => "[" + PrintItems(v, 0) + "]"
    case Obj(members) => "{" + PrintMembers(v, SortedKeys(members.Keys)) + "}"
  }

  /** `string_agg` of the elements from position `i` on, in order. */
  function PrintItems(parent: Json, i: nat): string
    requires parent.Arr? && i <= |parent.items|
    decreases parent, 0, |parent.items| - i
  {
    if i == |parent.items| then ""
    else if i + 1 == |parent.items| then Print(parent.items[i])
    else Print(parent.items[i]) + ("," + PrintItems(parent, i + 1))
  }

  function PrintMember(parent: Json, key: string): string
    requires parent.Obj? && key in parent.members
    decreases parent, 0, 0
  {
    Quote(key) + (":" + Print(parent.members[key]))
  }

  /** `string_agg` of the members, in the given key order. */
  function PrintMembers(parent: Json, keys: seq<string>): string
    requires parent.Obj? && forall k | k in keys :: k in parent.members
    decreases parent, 0, |keys|
  {
    if keys == [] then ""
    else if |keys| == 1 then PrintMember(parent, keys[0])
    else PrintMember(parent, keys[0]) + ("," + PrintMembers(parent, keys[1..]))
  }

  // ---------------------------------------------------------------- reading

  function ReadDigits(s: string): (r: (string, string))
    ensures r.0 + r.1 == s
    decreases |s|
  {
    if s == [] || !('0' <= s[0] <= '9') then ("", s)
    else
      var (d, rest) := ReadDigits(s[1..]);
      ([s[0]] + d, rest)
  }

  function DigitsValue(d: string): nat
  {
    if d == [] then 0
    else
      var digit := if '0' <= d[|d| - 1] <= '9' then d[|d| - 1] as int - '0' as int else 0;
      DigitsValue(d[..|d| - 1]) * 10 + digit
  }

  /** An integer part has digits, and no leading zero. */
  predicate IntegerPart(d: string)
  {
    d != [] && (|d| > 1 ==> d[0] != '0')
  }

  function ReadMagnitude(s: string): (r: Option<(nat, nat, string)>)
    ensures r.Some? ==> |r.value.2| < |s|
  {
    var (whole, rest) := ReadDigits(s);
    if !IntegerPart(whole) then None
    else if rest == [] || rest[0] != '.' then Some((DigitsValue(whole), 0, rest))
    else
      var (fraction, after) := ReadDigits(rest[1..]);
      if fraction == [] then None else Some((DigitsValue(whole + fraction), |fraction|, after))
  }

  function ReadNumber(s: string): (r: Option<(Json, string)>)
    ensures r.Some? ==> |r.value.1| < |s|
  {
    if s != [] && s[0] == '-' then
      match ReadMagnitude(s[1..])
      case Some((n, scale, rest)) => var negative: int := 0 - n; Some((Num(negative, scale), rest))
      case None => None
    else
      match ReadMagnitude(s)
      case Some((n, scale, rest)) => Some((Num(n, scale), rest))
      case None => None
  }

  function ReadValue(s: string): (r: Option<(Json, string)>)
    ensures r.Some? ==> |r.value.1| < |s|
    decreases |s|, 0
  {
    if s == [] then None
    else if "null" <= s then Some((Null, s[4..]))
    else if "true" <= s then Some((Bool(true), s[4..]))
    else if "false" <= s then Some((Bool(false), s[5..]))
    else if s[0] == '"' then
      match ReadBody(s[1..])
      case Some((t, rest)) => Some((Str(t), rest))
      case None => None
    else if s[0] == '[' then
      if |s| > 1 && s[1] == ']' then Some((Arr([]), s[2..]))
      else
        match ReadItems(s[1..])
        case Some((items, rest)) => Some((Arr(items), rest))
        case None => None
    else if s[0] == '{' then
      if |s| > 1 && s[1] == '}' then Some((Obj(map[]), s[2..]))
      else
        match ReadMembers(s[1..])
        case Some((members, rest)) => Some((Obj(members), rest))
        case None => None
    else ReadNumber(s)
  }

  function ReadItems(s: string): (r: Option<(seq<Json>, string)>)
    ensures r.Some? ==> |r.value.1| < |s|
    decreases |s|, 1
  {
    match ReadValue(s)
    case None => None
    case Some((v, rest)) =>
      if rest == [] then None
      else if rest[0] == ']' then Some(([v], rest[1..]))
      else if rest[0] != ',' then None
      else
        match ReadItems(rest[1..])
        case Some((vs, after)) => Some(([v] + vs, after))
        case None => None
  }

  /** One `"key":value`. */
  function ReadMember(s: string): (r: Option<(string, Json, string)>)
    ensures r.Some? ==> |r.value.2| < |s|
    decreases |s|, 1
  {
    if s == [] || s[0] != '"' then None
    else
      match ReadBody(s[1..])
      case None => None
      case Some((key, rest)) =>
        if rest == [] || rest[0] != ':' then None
        else
          match ReadValue(rest[1..])
          case Some((v, after)) => Some((key, v, after))
          case None => None
  }

  function ReadMembers(s: string): (r: Option<(map<string, Json>, string)>)
    ensures r.Some? ==> |r.value.1| < |s|
    decreases |s|, 2
  {
    match ReadMember(s)
    case None => None
    case Some((key, v, rest)) =>
      if rest == [] then None
      else if rest[0] == '}' then Some((map[key := v], rest[1..]))
      else if rest[0] != ',' then None
      else
        match ReadMembers(rest[1..])
        case Some((members, after)) => Some((members[key := v], after))
        case None => None
  }

  // ---------------------------------------------------------------- round trip: numbers

  lemma {:induction false} PrintNatDigits(n: nat)
    ensures Digits(PrintNat(n)) && PrintNat(n) != [] && DigitsValue(PrintNat(n)) == n
    decreases n
  {
    if n >= 10 { PrintNatDigits(n / 10); }
    var high, last := if n < 10 then [] else PrintNat(n / 10), ('0' as int + n % 10) as char;
    assert PrintNat(n) == high + [last];
    assert PrintNat(n)[..|PrintNat(n)| - 1] == high;
  }

  lemma {:induction false} LeadingZero(d: string)
    ensures DigitsValue(['0'] + d) == DigitsValue(d)
    decreases |d|
  {
    var z := ['0'] + d;
    if d == [] {
      assert z[..|z| - 1] == [];
    } else {
      assert z[..|z| - 1] == ['0'] + d[..|d| - 1];
      LeadingZero(d[..|d| - 1]);
    }
  }

  lemma {:induction false} ZeroFillDigits(d: string, width: nat)
    requires Digits(d)
    ensures Digits(ZeroFill(d, width)) && DigitsValue(ZeroFill(d, width)) == DigitsValue(d)
    decreases width - |d|
  {
    if |d| < width {
      LeadingZero(d);
      ZeroFillDigits(['0'] + d, width);
    }
  }

  lemma {:induction false} PrintNatLeads(n: nat)
    ensures PrintNat(n) != [] && (n > 0 ==> PrintNat(n)[0] != '0') && (n == 0 ==> |PrintNat(n)| == 1)
  {
    if n >= 10 { PrintNatLeads(n / 10); }
  }

  /** The digits before the point are an integer part. */
  lemma IntegerPartPrinted(n: nat, scale: nat)
    ensures var d := ZeroFill(PrintNat(n), scale + 1); IntegerPart(d[..|d| - scale])
  {
    PrintNatLeads(n);
  }

  /** What follows a number must not look like more of it. */
  predicate EndsNumber(rest: string)
  {
    rest != [] ==> !('0' <= rest[0] <= '9') && rest[0] != '.'
  }

  lemma {:induction false} ReadDigitsRoundTrip(d: string, rest: string)
    requires Digits(d) && (rest != [] ==> !('0' <= rest[0] <= '9'))
    ensures ReadDigits(d + rest) == (d, rest)
    decreases |d|
  {
    if d == [] {
      assert d + rest == rest;
    } else {
      assert (d + rest)[1..] == d[1..] + rest;
      ReadDigitsRoundTrip(d[1..], rest);
      assert [d[0]] + d[1..] == d;
    }
  }

  lemma ReadWholeRoundTrip(whole: string, rest: string)
    requires Digits(whole) && IntegerPart(whole) && EndsNumber(rest)
    ensures ReadMagnitude(whole + rest) == Some((DigitsValue(whole), 0, rest))
  {
    hide ReadDigits, DigitsValue, Digits, IntegerPart;
    ReadDigitsRoundTrip(whole, rest);
  }

  lemma ReadFractionRoundTrip(whole: string, fraction: string, rest: string)
    requires Digits(whole) && Digits(fraction) && IntegerPart(whole) && fraction != [] && EndsNumber(rest)
    ensures ReadMagnitude((whole + "." + fraction) + rest)
         == Some((DigitsValue(whole + fraction), |fraction|, rest))
  {
    hide ReadDigits, DigitsValue, Digits, IntegerPart;
    var tail := "." + (fraction + rest);
    assert (whole + "." + fraction) + rest == whole + tail;
    ReadDigitsRoundTrip(whole, tail);
    assert tail[1..] == fraction + rest;
    ReadDigitsRoundTrip(fraction, rest);
  }

  lemma DigitsSplit(d: string, n: nat)
    requires Digits(d) && n <= |d|
    ensures Digits(d[..n]) && Digits(d[n..]) && d[..n] + d[n..] == d
  {
  }

  lemma ReadMagnitudeRoundTrip(n: nat, scale: nat, rest: string)
    requires EndsNumber(rest)
    ensures PrintMagnitude(n, scale) != [] && '0' <= PrintMagnitude(n, scale)[0] <= '9'
    ensures ReadMagnitude(PrintMagnitude(n, scale) + rest) == Some((n, scale, rest))
  {
    hide ReadMagnitude, DigitsValue, Digits, IntegerPart, ZeroFill, PrintNat, EndsNumber;
    PrintNatDigits(n);
    ZeroFillDigits(PrintNat(n), scale + 1);
    IntegerPartPrinted(n, scale);
    var d := ZeroFill(PrintNat(n), scale + 1);
    DigitsSplit(d, |d| - scale);
    var whole, fraction := d[..|d| - scale], d[|d| - scale..];
    FirstDigit(whole);
    if scale == 0 {
      assert whole == d;
      ReadWholeRoundTrip(d, rest);
    } else {
      ReadFractionRoundTrip(whole, fraction, rest);
    }
  }

  lemma FirstDigit(d: string)
    requires Digits(d) && IntegerPart(d)
    ensures d != [] && '0' <= d[0] <= '9'
  {
  }

  lemma ReadNumberSplit(m: string, n: nat, scale: nat, rest: string)
    requires m != [] && '0' <= m[0] <= '9' && ReadMagnitude(m + rest) == Some((n, scale, rest))
    ensures ReadNumber(m + rest) == Some((Num(n, scale), rest))
    ensures ReadNumber(("-" + m) + rest) == Some((Num(-(n as int), scale), rest))
  {
    assert (("-" + m) + rest)[1..] == m + rest;
  }

  lemma ReadNumberRoundTrip(u: int, scale: nat, rest: string)
    requires EndsNumber(rest)
    ensures var p := PrintNumber(u, scale); p != [] && (p[0] == '-' || '0' <= p[0] <= '9')
    ensures ReadNumber(PrintNumber(u, scale) + rest) == Some((Num(u, scale), rest))
  {
    var n := if u < 0 then -u else u;
    ReadMagnitudeRoundTrip(n, scale, rest);
    ReadNumberSplit(PrintMagnitude(n, scale), n, scale, rest);
  }

  lemma NotAWord(s: string)
    requires s != [] && s[0] !in {'n', 't', 'f'}
    ensures !("null" <= s) && !("true" <= s) && !("false" <= s)
  {
    assert "null"[0] == 'n' && "true"[0] == 't' && "false"[0] == 'f';
  }

  /** The first character decides which reader is used. */
  lemma Dispatch(s: string)
    requires s != [] && s[0] !in {'n', 't', 'f'}
    ensures s[0] == '-' || '0' <= s[0] <= '9' ==> ReadValue(s) == ReadNumber(s)
    ensures |s| > 1 && s[0] == '[' && s[1] != ']' ==>
              ReadValue(s) == match ReadItems(s[1..])
                              case Some((items, rest)) => Some((Arr(items), rest))
                              case None => None
    ensures |s| > 1 && s[0] == '{' && s[1] != '}' ==>
              ReadValue(s) == match ReadMembers(s[1..])
                              case Some((members, rest)) => Some((Obj(members), rest))
                              case None => None
    ensures |s| > 1 && s[0] == '[' && s[1] == ']' ==> ReadValue(s) == Some((Arr([]), s[2..]))
    ensures |s| > 1 && s[0] == '{' && s[1] == '}' ==> ReadValue(s) == Some((Obj(map[]), s[2..]))
  {
    NotAWord(s);
  }

  lemma ReadWord(rest: string)
    ensures ReadValue("null" + rest) == Some((Null, rest))
    ensures ReadValue("true" + rest) == Some((Bool(true), rest))
    ensures ReadValue("false" + rest) == Some((Bool(false), rest))
  {
    var n, t, f := "null" + rest, "true" + rest, "false" + rest;
    assert n[4..] == rest && t[4..] == rest && f[5..] == rest;
    assert "null"[0] != t[0] && "null"[0] != f[0] && "true"[0] != f[0];
  }

  lemma DispatchString(body: string, t: string, rest: string)
    requires ReadBody(body) == Some((t, rest))
    ensures ReadValue("\"" + body) == Some((Str(t), rest))
  {
    var s := "\"" + body;
    NotAWord(s);
    assert s[1..] == body;
  }

  lemma ReadStringRoundTrip(s: string, rest: string)
    ensures ReadValue(Quote(s) + rest) == Some((Str(s), rest))
  {
    ReadBodyRoundTrip(s, rest);
    var body := EscapeAll(s) + ("\"" + rest);
    DispatchString(body, s, rest);
    assert Quote(s) + rest == "\"" + body;
  }

  // ---------------------------------------------------------------- round trip: values

  /** Reading undoes printing, for every value and whatever follows it that is not more of a number. */
  lemma {:induction false} ReadValueRoundTrip(v: Json, rest: string)
    requires EndsNumber(rest)
    ensures Print(v) != [] && Print(v)[0] != ']'
    ensures ReadValue(Print(v) + rest) == Some((v, rest))
    decreases v, 2, 0
  {
    match v
    case Null => ReadWord(rest);
    case Bool(b) => ReadWord(rest);
    case Num(u, scale) =>
      ReadNumberRoundTrip(u, scale, rest);
      Dispatch(Print(v) + rest);
    case Str(s) => ReadStringRoundTrip(s, rest);
    case Arr(_) => ReadArrayRoundTrip(v, rest);
    case Obj(_) => ReadObjectRoundTrip(v, rest);
  }

  lemma {:induction false} ReadArrayRoundTrip(v: Json, rest: string)
    requires v.Arr?
    ensures Print(v) != [] && Print(v)[0] == '['
    ensures ReadValue(Print(v) + rest) == Some((v, rest))
    decreases v, 1, 0
  {
    var s := Print(v) + rest;
    if v.items == [] {
      assert Print(v) == "[]";
      assert s[2..] == rest;
    } else {
      var body := PrintItems(v, 0) + ("]" + rest);
      assert s[1..] == body;
      ReadItemsRoundTrip(v, 0, rest);
      assert s[1] == body[0];
    }
    Dispatch(s);
  }

  lemma {:induction false} ReadItemsRoundTrip(parent: Json, i: nat, rest: string)
    requires parent.Arr? && i < |parent.items|
    ensures PrintItems(parent, i) != [] && PrintItems(parent, i)[0] != ']'
    ensures ReadItems(PrintItems(parent, i) + ("]" + rest)) == Some((parent.items[i..], rest))
    decreases parent, 0, |parent.items| - i
  {
    var v := parent.items[i];
    if i + 1 == |parent.items| {
      ReadValueRoundTrip(v, "]" + rest);
      assert ("]" + rest)[1..] == rest;
      assert parent.items[i..] == [v];
    } else {
      var tail := PrintItems(parent, i + 1) + ("]" + rest);
      assert PrintItems(parent, i) + ("]" + rest) == Print(v) + ("," + tail);
      ReadValueRoundTrip(v, "," + tail);
      assert ("," + tail)[1..] == tail;
      ReadItemsRoundTrip(parent, i + 1, rest);
      assert parent.items[i..] == [v] + parent.items[i + 1..];
    }
  }

  lemma DispatchMember(body: string, key: string, after: string, v: Json, rest: string)
    requires ReadBody(body) == Some((key, ":" + after)) && ReadValue(after) == Some((v, rest))
    ensures ReadMember("\"" + body) == Some((key, v, rest))
  {
    assert ("\"" + body)[1..] == body && (":" + after)[1..] == after;
  }

  lemma MemberText(e: string, value: string, rest: string)
    ensures (("\"" + e + "\"") + (":" + value)) + rest == "\"" + (e + ("\"" + (":" + (value + rest))))
  {
  }

  lemma ReadMemberText(key: string, value: string, v: Json, rest: string)
    requires ReadValue(value + rest) == Some((v, rest))
    ensures ReadMember((Quote(key) + (":" + value)) + rest) == Some((key, v, rest))
  {
    ReadBodyRoundTrip(key, ":" + (value + rest));
    DispatchMember(EscapeAll(key) + ("\"" + (":" + (value + rest))), key, value + rest, v, rest);
    MemberText(EscapeAll(key), value, rest);
  }

  lemma {:induction false} ReadMemberRoundTrip(parent: Json, key: string, rest: string)
    requires parent.Obj? && key in parent.members && EndsNumber(rest)
    ensures PrintMember(parent, key) != [] && PrintMember(parent, key)[0] == '"'
    ensures ReadMember(PrintMember(parent, key) + rest) == Some((key, parent.members[key], rest))
    decreases parent, 0, 0
  {
    ReadValueRoundTrip(parent.members[key], rest);
    ReadMemberText(key, Print(parent.members[key]), parent.members[key], rest);
  }

  /** The members of an object whose keys are listed. */
  ghost function Restrict(members: map<string, Json>, keys: seq<string>): map<string, Json>
    requires forall k | k in keys :: k in members
  {
    map k | k in keys :: members[k]
  }

  lemma RestrictCons(members: map<string, Json>, keys: seq<string>)
    requires keys != [] && forall k | k in keys :: k in members
    ensures (forall k | k in keys[1..] :: k in members)
    ensures Restrict(members, keys) == Restrict(members, keys[1..])[keys[0] := members[keys[0]]]
  {
    assert keys == [keys[0]] + keys[1..];
  }

  lemma {:induction false} ReadMembersRoundTrip(parent: Json, keys: seq<string>, rest: string)
    requires parent.Obj? && keys != [] && forall k | k in keys :: k in parent.members
    ensures PrintMembers(parent, keys) != [] && PrintMembers(parent, keys)[0] == '"'
    ensures ReadMembers(PrintMembers(parent, keys) + ("}" + rest))
         == Some((Restrict(parent.members, keys), rest))
    decreases parent, 0, |keys|
  {
    RestrictCons(parent.members, keys);
    if |keys| == 1 {
      ReadMemberRoundTrip(parent, keys[0], "}" + rest);
      assert ("}" + rest)[1..] == rest;
      assert Restrict(parent.members, keys[1..]) == map[];
    } else {
      var tail := PrintMembers(parent, keys[1..]) + ("}" + rest);
      assert PrintMembers(parent, keys) + ("}" + rest) == PrintMember(parent, keys[0]) + ("," + tail);
      ReadMemberRoundTrip(parent, keys[0], "," + tail);
      assert ("," + tail)[1..] == tail;
      ReadMembersRoundTrip(parent, keys[1..], rest);
    }
  }

  lemma DispatchObject(text: string, members: map<string, Json>, rest: string)
    requires text != [] && text[0] == '"' && ReadMembers(text + ("}" + rest)) == Some((members, rest))
    ensures ReadValue(("{" + text + "}") + rest) == Some((Obj(members), rest))
  {
    var s := ("{" + text + "}") + rest;
    assert s[1..] == text + ("}" + rest) && s[1] == text[0];
    Dispatch(s);
  }

  lemma {:induction false} ReadObjectRoundTrip(v: Json, rest: string)
    requires v.Obj?
    ensures Print(v) != [] && Print(v)[0] == '{'
    ensures ReadValue(Print(v) + rest) == Some((v, rest))
    decreases v, 1, 0
  {
    var keys := SortedKeys(v.members.Keys);
    assert Restrict(v.members, keys) == v.members;
    if keys == [] {
      assert Print(v) == "{}";
      Dispatch("{}" + rest);
      assert ("{}" + rest)[2..] == rest;
    } else {
      ReadMembersRoundTrip(v, keys, rest);
      DispatchObject(PrintMembers(v, keys), v.members, rest);
    }
  }

  /** Equal canonical text means equal value. */
  lemma PrintInjective(v: Json, w: Json)
    requires Print(v) == Print(w)
    ensures v == w
  {
    ReadValueRoundTrip(v, "");
    ReadValueRoundTrip(w, "");
    assert Print(v) + "" == Print(v) && Print(w) + "" == Print(w);
  }

  // ---------------------------------------------------------------- pieces of canonical text

  /** `string_agg(part, ',')`. */
  function Join(parts: seq<string>): string
  {
    if parts == [] then ""
    else if |parts| == 1 then parts[0]
    else parts[0] + ("," + Join(parts[1..]))
  }

  lemma {:induction false} PrintMembersJoin(parent: Json, keys: seq<string>, parts: seq<string>)
    requires parent.Obj? && (forall k | k in keys :: k in parent.members) && |parts| == |keys|
    requires forall i | 0 <= i < |keys| :: parts[i] == PrintMember(parent, keys[i])
    ensures PrintMembers(parent, keys) == Join(parts)
    decreases |keys|
  {
    if |keys| > 1 { PrintMembersJoin(parent, keys[1..], parts[1..]); }
  }

  lemma {:induction false} PrintItemsJoin(parent: Json, i: nat, parts: seq<string>)
    requires parent.Arr? && i <= |parent.items| && |parts| == |parent.items| - i
    requires forall j | 0 <= j < |parts| :: parts[j] == Print(parent.items[i + j])
    ensures PrintItems(parent, i) == Join(parts)
    decreases |parts|
  {
    if |parts| > 1 { PrintItemsJoin(parent, i + 1, parts[1..]); }
  }

  /** Printable ASCII without a quote or a backslash is copied as it is. */
  ghost predicate Plain(s: string)
  {
    forall i | 0 <= i < |s| :: 32 <= s[i] as int <= 126 && s[i] != '"' && s[i] != '\\'
  }

  lemma {:induction false} EscapePlain(s: string)
    requires Plain(s)
    ensures EscapeAll(s) == s
    decreases |s|
  {
    if s != [] {
      EscapePlain(s[1..]);
      assert [s[0]] + s[1..] == s;
    }
  }

  lemma {:induction false} SortedKeysUnique(s: set<string>, ks: seq<string>)
    requires StrictlyOrdered(ks) && forall k :: k in ks <==> k in s
    ensures SortedKeys(s) == ks
    decreases |ks|
  {
    var r := SortedKeys(s);
    if ks == [] {
      assert s == {} by { assert forall k | k in s :: k in ks; }
    } else {
      var k := ks[0];
      assert k in s && ks == [k] + ks[1..];
      forall x | x in s ensures Text.Leq(k, x) { Text.LeqReflexive(k); }
      assert r != [] && r[0] in r;
      assert Text.Leq(r[0], k);
      Text.LeqAntisymmetric(k, r[0]);
      assert forall x :: x in ks[1..] <==> x in s - {k};
      SortedKeysUnique(s - {k}, ks[1..]);
    }
  }

  /** One `"key":value` of hand-written text. */
  function Member(key: string, value: string): string
  {
    "\"" + key + "\":" + value
  }

  lemma MemberPrinted(parent: Json, key: string)
    requires parent.Obj? && key in parent.members && Plain(key)
    ensures PrintMember(parent, key) == Member(key, Print(parent.members[key]))
  {
    EscapePlain(key);
  }

  /** An object whose keys are plain prints as its members joined in key order. */
  lemma PrintObject(v: Json, keys: seq<string>, values: seq<Json>, parts: seq<string>)
    requires v.Obj? && StrictlyOrdered(keys) && |keys| == |values| == |parts|
    requires v.members.Keys == set k | k in keys
    requires forall i | 0 <= i < |keys| :: Plain(keys[i])
    requires forall i | 0 <= i < |keys| :: keys[i] in v.members && v.members[keys[i]] == values[i]
    requires forall i | 0 <= i < |keys| :: parts[i] == Member(keys[i], Print(values[i]))
    ensures Print(v) == "{" + Join(parts) + "}"
  {
    SortedKeysUnique(v.members.Keys, keys);
    forall i | 0 <= i < |keys| ensures parts[i] == PrintMember(v, keys[i]) {
      MemberPrinted(v, keys[i]);
    }
    PrintMembersJoin(v, keys, parts);
  }
}
