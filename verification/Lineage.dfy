/** The application's canonical content text: `json.dumps` with sorted keys, no spaces and ASCII escapes, after
    every point in time is tagged and moved to UTC. It is proved to be the database's canonical text. */
module Lineage {
  import opened JsonString
  import opened Json
  import opened Timestamp
  import Sorting
  import Text

  datatype Entry = Entry(key: string, value: Value)

  /** The supported values; a dict is its entries in order of insertion. */
  datatype Value =
    | Nothing
    | Flag(flag: bool)
    | Whole(whole: int)
    | Words(words: string)
    | Moment(at: Aware)
    | List(elements: seq<Value>)
    | Dict(entries: seq<Entry>)

  // ---------------------------------------------------------------- normalising

  /** Normalising raises exactly on a time that leaves the calendar in UTC, or on an empty key. */
  predicate Normalisable(v: Value)
  {
    match v
    case Moment(at) => ToUtc(at).Ok?
    case List(items) => forall i | 0 <= i < |items| :: Normalisable(items[i])
    case Dict(entries) => forall i | 0 <= i < |entries| :: entries[i].key != "" && Normalisable(entries[i].value)
    case _ => true
  }

  function Normalised(v: Value): Value
    requires Normalisable(v)
  {
    match v
    case Moment(at) => Dict([Entry("datetime", Words(IsoFormat(ToUtc(at).value)))])
    case List(items) => List(seq(|items|, i requires 0 <= i < |items| => Normalised(items[i])))
    case Dict(entries) =>
      Dict(seq(|entries|, i requires 0 <= i < |entries| => Entry(entries[i].key, Normalised(entries[i].value))))
    case _ => v
  }

  // ---------------------------------------------------------------- writing

  ghost predicate DistinctKeys(es: seq<Entry>)
  {
    forall i, j | 0 <= i < j < |es| :: es[i].key != es[j].key
  }

  /** What can be written: no point in time, and one entry for each key of a dict. */
  ghost predicate Writable(v: Value)
  {
    match v
    case Moment(_) => false
    case List(items) => forall i | 0 <= i < |items| :: Writable(items[i])
    case Dict(entries) => DistinctKeys(entries) && forall i | 0 <= i < |entries| :: Writable(entries[i].value)
    case _ => true
  }

  const HEX_DIGITS := "0123456789abcdef"

  /** `'{0:x}'`. */
  function Hex(n: nat): string
  {
    (if n < 16 then "" else Hex(n / 16)) + [HEX_DIGITS[n % 16]]
  }

  /** `'{0:04x}'`. */
  function HexFormat(n: nat): string
  {
    ZeroFill(Hex(n), 4)
  }

  /** The replacement of one character; only printable ASCII other than a quote or a backslash is kept. */
  function AsciiEscape(c: char): string
  {
    if c != '\\' && c != '"' && ' ' <= c <= '~' then [c]
    else if c == '\\' then "\\\\"
    else if c == '"' then "\\\""
    else if c == '\n' then "\\n"
    else if c == '\r' then "\\r"
    else if c == '\t' then "\\t"
    else if c as int == 0x0c then "\\f"
    else if c as int == 0x08 then "\\b"
    else if c as int < 0x10000 then "\\u" + HexFormat(c as int)
    else
      var n := c as int - 0x10000;
      "\\u" + HexFormat(0xd800 + n / 1024 % 1024) + "\\u" + HexFormat(0xdc00 + n % 1024)
  }

  function AsciiEscapes(s: string): string
  {
    if s == "" then "" else AsciiEscape(s[0]) + AsciiEscapes(s[1..])
  }

  function AsciiQuoted(s: string): string
  {
    "\"" + AsciiEscapes(s) + "\""
  }

  predicate KeyLeq(a: Entry, b: Entry)
  {
    Text.Leq(a.key, b.key)
  }

  /** `sorted(items)`: keys are distinct, so values are never compared. */
  function SortedEntries(es: seq<Entry>): (r: seq<Entry>)
    ensures |r| == |es| && forall e :: e in r <==> e in es
  {
    var r := Sorting.Sort(es, KeyLeq);
    Sorting.SortPermutes(es, KeyLeq);
    assert forall e :: (e in r <==> e in multiset(r)) && (e in es <==> e in multiset(es));
    r
  }

  function Dumps(v: Value): string
    requires Writable(v)
    decreases v, 1
  {
    match v
    case Nothing => "null"
    case Flag(b) => if b then "true" else "false"
    case Whole(n) => if n < 0 then "-" + PrintNat(-n) else PrintNat(n)
    case Words(s) => AsciiQuoted(s)
    case List(_) => "[" + Join(DumpsItems(v)) + "]"
    case Dict(_) => "{" + Join(DumpsEntries(v)) + "}"
  }

  function DumpsItems(v: Value): (parts: seq<string>)
    requires v.List? && Writable(v)
    ensures |parts| == |v.elements| && forall i | 0 <= i < |parts| :: parts[i] == Dumps(v.elements[i])
    decreases v, 0
  {
    seq(|v.elements|, i requires 0 <= i < |v.elements| => Dumps(v.elements[i]))
  }

  function DumpsEntries(v: Value): (parts: seq<string>)
    requires v.Dict? && Writable(v)
    ensures var es := SortedEntries(v.entries);
            |parts| == |es| && forall i | 0 <= i < |es| :: parts[i] == DumpsEntry(v, es[i])
    decreases v, 0, 1
  {
    var es := SortedEntries(v.entries);
    seq(|es|, i requires 0 <= i < |es| => DumpsEntry(v, es[i]))
  }

  function DumpsEntry(parent: Value, e: Entry): string
    requires parent.Dict? && Writable(parent) && e in parent.entries
    decreases parent, 0, 0
  {
    assert exists i | 0 <= i < |parent.entries| :: parent.entries[i] == e;
    AsciiQuoted(e.key) + (":" + Dumps(e.value))
  }

  // ---------------------------------------------------------------- the value a JSON column stores

  function JsonOf(v: Value): Json
    requires Writable(v)
    decreases v, 1, 0
  {
    match v
    case Nothing => Null
    case Flag(b) => Bool(b)
    case Whole(n) => Num(n, 0)
    case Words(s) => Str(s)
    case List(_) => Arr(ItemsOf(v))
    case Dict(entries) => Obj(MembersOf(v, |entries|))
  }

  function ItemsOf(v: Value): (r: seq<Json>)
    requires v.List? && Writable(v)
    ensures |r| == |v.elements| && forall i | 0 <= i < |r| :: r[i] == JsonOf(v.elements[i])
    decreases v, 0, 0
  {
    seq(|v.elements|, i requires 0 <= i < |v.elements| => JsonOf(v.elements[i]))
  }

  function MembersOf(parent: Value, n: nat): map<string, Json>
    requires parent.Dict? && Writable(parent) && n <= |parent.entries|
    decreases parent, 0, n
  {
    if n == 0 then map[]
    else MembersOf(parent, n - 1)[parent.entries[n - 1].key := JsonOf(parent.entries[n - 1].value)]
  }

  lemma {:induction false} MembersHold(v: Value, n: nat)
    requires v.Dict? && Writable(v) && n <= |v.entries|
    ensures forall i | 0 <= i < n ::
              v.entries[i].key in MembersOf(v, n) && MembersOf(v, n)[v.entries[i].key] == JsonOf(v.entries[i].value)
    decreases n
  {
    hide JsonOf;
    if n > 0 {
      MembersHold(v, n - 1);
      assert forall i | 0 <= i < n - 1 :: v.entries[i].key != v.entries[n - 1].key;
    }
  }

  lemma {:induction false} MembersListed(v: Value, n: nat, k: string) returns (i: nat)
    requires v.Dict? && Writable(v) && n <= |v.entries| && k in MembersOf(v, n)
    ensures i < n && v.entries[i].key == k
    decreases n
  {
    hide JsonOf, Writable;
    if k == v.entries[n - 1].key { i := n - 1; } else { i := MembersListed(v, n - 1, k); }
  }

  // ---------------------------------------------------------------- one text

  lemma {:induction false} PadAgrees(s: string, width: nat)
    requires |s| <= width
    ensures LPad(s, width, '0') == ZeroFill(s, width)
    decreases width - |s|
  {
    if |s| < width { PadAgrees(['0'] + s, width); } else { assert s[..width] == s; }
  }

  lemma {:induction false} HexLength(n: nat, digits: nat)
    requires digits > 0 && n < Power16(digits)
    ensures |ToHex(n)| <= digits
    decreases digits
  {
    if n >= 16 { HexLength(n / 16, digits - 1); }
  }

  function Power16(n: nat): nat
  {
    if n == 0 then 1 else 16 * Power16(n - 1)
  }

  lemma DigitAgrees(d: nat)
    requires d < 16
    ensures HEX_DIGITS[d] == HexDigit(d)
  {
  }

  lemma {:induction false} HexIsToHex(n: nat)
    ensures Hex(n) == ToHex(n)
  {
    DigitAgrees(n % 16);
    if n >= 16 { HexIsToHex(n / 16); }
  }

  lemma HexAgrees(n: nat)
    requires n < 0x10000
    ensures "\\u" + HexFormat(n) == UnicodeEscape(n)
  {
    assert Power16(2) == 256 && Power16(3) == 4096 && Power16(4) == 65536;
    HexLength(n, 4);
    HexIsToHex(n);
    PadAgrees(ToHex(n), 4);
  }

  lemma EscapeAgrees(c: char)
    ensures AsciiEscape(c) == EscapeChar(c)
  {
    hide HexFormat, UnicodeEscape;
    var n := c as int;
    if n < 0x10000 {
      HexAgrees(n);
    } else {
      var m := n - 0x10000;
      assert m / 1024 < 1024;
      assert m / 1024 % 1024 == m / 1024;
      HexAgrees(0xd800 + m / 1024);
      HexAgrees(0xdc00 + m % 1024);
      JoinEscapes(m / 1024, m % 1024);
    }
  }

  lemma JoinEscapes(a: nat, b: nat)
    ensures "\\u" + HexFormat(0xd800 + a) + "\\u" + HexFormat(0xdc00 + b)
            == ("\\u" + HexFormat(0xd800 + a)) + ("\\u" + HexFormat(0xdc00 + b))
  {
  }

  lemma {:induction false} EscapesAgree(s: string)
    ensures AsciiEscapes(s) == EscapeAll(s)
    decreases |s|
  {
    hide AsciiEscape, EscapeChar;
    if s != [] {
      EscapeAgrees(s[0]);
      EscapesAgree(s[1..]);
    }
  }

  /** Both sides quote every text alike. */
  lemma QuotesAgree(s: string)
    ensures AsciiQuoted(s) == Quote(s)
  {
    EscapesAgree(s);
  }

  lemma WholeAgrees(n: int)
    ensures Dumps(Whole(n)) == Print(Num(n, 0))
  {
    if n < 0 { PrintNatLeads(-n); } else { PrintNatLeads(n); }
  }

  lemma KeysTotal()
    ensures Sorting.TotalPreorder(KeyLeq)
  {
    forall a: Entry, b: Entry ensures KeyLeq(a, b) || KeyLeq(b, a) { Text.LeqTotal(a.key, b.key); }
    forall a: Entry, b: Entry, c: Entry | KeyLeq(a, b) && KeyLeq(b, c) ensures KeyLeq(a, c) {
      Text.LeqTransitive(a.key, b.key, c.key);
    }
  }

  function KeysOf(es: seq<Entry>): (ks: seq<string>)
    ensures |ks| == |es| && forall i | 0 <= i < |es| :: ks[i] == es[i].key
  {
    seq(|es|, i requires 0 <= i < |es| => es[i].key)
  }

  /** Sorted entries have strictly increasing keys. */
  lemma SortedStrictly(es: seq<Entry>)
    requires DistinctKeys(es)
    ensures StrictlyOrdered(KeysOf(SortedEntries(es)))
  {
    var r := SortedEntries(es);
    KeysTotal();
    Sorting.SortOrders(es, KeyLeq);
    Sorting.SortPermutes(es, KeyLeq);
    forall i, j | 0 <= i < j < |r| ensures r[i].key != r[j].key && Text.Leq(r[i].key, r[j].key) {
      assert KeyLeq(r[i], r[j]);
      SortedDistinct(es, r, i, j);
    }
  }

  lemma SortedDistinct(es: seq<Entry>, r: seq<Entry>, i: nat, j: nat)
    requires DistinctKeys(es) && multiset(r) == multiset(es) && i < j < |r|
    ensures r[i].key != r[j].key
  {
    assert r[i] in multiset(r) && r[j] in multiset(r);
    var a :| 0 <= a < |es| && es[a] == r[i];
    var b :| 0 <= b < |es| && es[b] == r[j];
    if a == b {
      Sorting.TwiceCounted(r, i, j);
      OnceCounted(es, a);
    } else if a < b {
      assert es[a].key != es[b].key;
    } else {
      assert es[b].key != es[a].key;
    }
  }

  lemma OnceCounted(es: seq<Entry>, a: nat)
    requires DistinctKeys(es) && a < |es|
    ensures multiset(es)[es[a]] == 1
  {
    var head, tail := es[..a], es[a + 1..];
    assert es == head + [es[a]] + tail;
    forall k | 0 <= k < |tail| ensures tail[k].key != es[a].key { assert tail[k] == es[a + 1 + k]; }
    assert es[a] !in head && es[a] !in tail;
    assert multiset(es) == multiset(head) + multiset{es[a]} + multiset(tail);
  }

  /** What the application writes is what the database prints, for every value. */
  lemma {:induction false} DumpsIsPrint(v: Value)
    requires Writable(v)
    ensures Dumps(v) == Print(JsonOf(v))
    decreases v, 2
  {
    match v
    case Whole(n) => WholeAgrees(n);
    case Words(s) => QuotesAgree(s);
    case List(items) => ListIsPrint(v);
    case Dict(entries) => DictIsPrint(v);
    case _ =>
  }

  lemma ListIsPrint(v: Value)
    requires v.List? && Writable(v)
    ensures Dumps(v) == Print(JsonOf(v))
    decreases v, 0
  {
    hide DumpsItems, ItemsOf, Join, PrintItems;
    var parts, j := DumpsItems(v), JsonOf(v);
    forall i | 0 <= i < |parts| ensures parts[i] == Print(j.items[i]) { DumpsIsPrint(v.elements[i]); }
    PrintItemsJoin(j, 0, parts);
  }

  lemma EntryIsPrint(v: Value, e: Entry)
    requires v.Dict? && Writable(v) && e in v.entries
    requires e.key in MembersOf(v, |v.entries|) && MembersOf(v, |v.entries|)[e.key] == JsonOf(e.value)
    requires Dumps(e.value) == Print(JsonOf(e.value))
    ensures DumpsEntry(v, e) == PrintMember(Obj(MembersOf(v, |v.entries|)), e.key)
  {
    hide Dumps, JsonOf, MembersOf, Print, Quote, AsciiQuoted;
    QuotesAgree(e.key);
  }

  /** The sorted entries are the members in key order. */
  lemma SortedMembers(v: Value)
    requires v.Dict? && Writable(v)
    ensures SortedKeys(MembersOf(v, |v.entries|).Keys) == KeysOf(SortedEntries(v.entries))
  {
    hide MembersOf, SortedEntries, StrictlyOrdered, JsonOf, KeysOf;
    var members, sorted := MembersOf(v, |v.entries|), SortedEntries(v.entries);
    var keys := KeysOf(sorted);
    MembersHold(v, |v.entries|);
    SortedStrictly(v.entries);
    forall k ensures k in keys <==> k in members.Keys {
      KeyEntries(v, sorted, keys, k);
      if k in members { var i := MembersListed(v, |v.entries|, k); }
    }
    SortedKeysUnique(members.Keys, keys);
  }

  lemma EntriesArePrint(v: Value, e: Entry)
    requires v.Dict? && Writable(v) && e in v.entries
    ensures var members := MembersOf(v, |v.entries|);
            e.key in members && DumpsEntry(v, e) == PrintMember(Obj(members), e.key)
    decreases v, 0
  {
    hide Dumps, DumpsEntry, MembersOf, JsonOf, Print, PrintMember;
    MembersHold(v, |v.entries|);
    var j :| 0 <= j < |v.entries| && v.entries[j] == e;
    DumpsIsPrint(v.entries[j].value);
    EntryIsPrint(v, e);
  }

  lemma DictIsPrint(v: Value)
    requires v.Dict? && Writable(v)
    ensures Dumps(v) == Print(JsonOf(v))
    decreases v, 1
  {
    hide DumpsEntries, DumpsEntry, MembersOf, SortedEntries, Join, PrintMembers, PrintMember, KeysOf, SortedKeys;
    var members, sorted, parts := MembersOf(v, |v.entries|), SortedEntries(v.entries), DumpsEntries(v);
    var keys := KeysOf(sorted);
    SortedMembers(v);
    forall i | 0 <= i < |keys| ensures keys[i] in members && parts[i] == PrintMember(Obj(members), keys[i]) {
      assert sorted[i] in v.entries;
      EntriesArePrint(v, sorted[i]);
    }
    PrintMembersJoin(Obj(members), keys, parts);
  }

  lemma KeyEntries(v: Value, sorted: seq<Entry>, keys: seq<string>, k: string)
    requires v.Dict? && keys == KeysOf(sorted) && forall e :: e in sorted <==> e in v.entries
    ensures k in keys <==> exists i | 0 <= i < |v.entries| :: v.entries[i].key == k
  {
    if k in keys {
      var i :| 0 <= i < |keys| && keys[i] == k;
      assert sorted[i] in v.entries;
    }
    if i :| 0 <= i < |v.entries| && v.entries[i].key == k {
      assert v.entries[i] in sorted;
      var j :| 0 <= j < |sorted| && sorted[j] == v.entries[i];
      assert keys[j] == k;
    }
  }

  // ---------------------------------------------------------------- values of known shape

  /** Nothing left to normalise. */
  ghost predicate Settled(v: Value)
  {
    match v
    case Moment(_) => false
    case List(items) => forall i | 0 <= i < |items| :: Settled(items[i])
    case Dict(entries) =>
      DistinctKeys(entries) && forall i | 0 <= i < |entries| :: entries[i].key != "" && Settled(entries[i].value)
    case _ => true
  }

  lemma {:induction false} SettledNormal(v: Value)
    requires Settled(v)
    ensures Writable(v) && Normalisable(v) && Normalised(v) == v
    decreases v
  {
    match v
    case List(items) =>
      forall i | 0 <= i < |items|
        ensures Writable(items[i]) && Normalisable(items[i]) && Normalised(items[i]) == items[i]
      {
        SettledNormal(items[i]);
      }
    case Dict(entries) =>
      forall i | 0 <= i < |entries|
        ensures && Writable(entries[i].value) && Normalisable(entries[i].value)
                && Normalised(entries[i].value) == entries[i].value
      {
        SettledNormal(entries[i].value);
      }
    case _ =>
  }

  /** Every dict in the value has one entry for each key. */
  ghost predicate KeyedOnce(v: Value)
  {
    match v
    case List(items) => forall i | 0 <= i < |items| :: KeyedOnce(items[i])
    case Dict(entries) => DistinctKeys(entries) && forall i | 0 <= i < |entries| :: KeyedOnce(entries[i].value)
    case _ => true
  }

  /** Normalising leaves no point in time and no empty key, so doing it again changes nothing. */
  lemma {:induction false} NormalisedSettled(v: Value)
    requires Normalisable(v) && KeyedOnce(v)
    ensures Settled(Normalised(v))
    decreases v
  {
    match v
    case List(items) =>
      forall i | 0 <= i < |items| ensures Settled(Normalised(items[i])) { NormalisedSettled(items[i]); }
    case Dict(entries) =>
      forall i | 0 <= i < |entries| ensures Settled(Normalised(entries[i].value)) {
        NormalisedSettled(entries[i].value);
      }
    case Moment(at) => TaggedSettled(IsoFormat(ToUtc(at).value));
    case _ =>
  }

  lemma TaggedSettled(text: string)
    ensures Settled(Dict([Entry("datetime", Words(text))]))
  {
  }

  /** A dict is stored as the object with its members. */
  lemma DictIs(v: Value, m: map<string, Json>)
    requires v.Dict? && Writable(v)
    requires forall i | 0 <= i < |v.entries| ::
               v.entries[i].key in m && m[v.entries[i].key] == JsonOf(v.entries[i].value)
    requires forall k | k in m :: exists i | 0 <= i < |v.entries| :: v.entries[i].key == k
    ensures JsonOf(v) == Obj(m)
  {
    hide MembersOf;
    var n := MembersOf(v, |v.entries|);
    MembersHold(v, |v.entries|);
    forall k ensures k in n <==> k in m { if k in n { var i := MembersListed(v, |v.entries|, k); } }
    assert n.Keys == m.Keys;
    forall k | k in m ensures n[k] == m[k] {
      var i :| 0 <= i < |v.entries| && v.entries[i].key == k;
    }
    assert n == m;
  }
}
