/** Keys, values and pairs of the configuration store (src/ConfigTypes.h and .cpp). */
module ConfigTypes {

  datatype Option<+T> = None | Some(value: T)

  newtype int32 = x: int | -0x8000_0000 <= x < 0x8000_0000

  /** The six alternatives of the variant behind ConfigValue, in the order of its type indices. */
  datatype Payload =
    | Int32(i: int32)
    | Str(s: string)
    | Bool(b: bool)
    | Int32List(ns: seq<int32>)
    | StrList(ss: seq<string>)
    | BoolList(bs: seq<bool>)

  /** A ConfigValue: `Empty` stands for "no value", and reads as int32 0 underneath. */
  datatype Value = Empty | Of(payload: Payload)

  function Raw(v: Value): Payload {
    if v.Empty? then Int32(0) else v.payload
  }

  /** ConfigValue's operator==. */
  predicate ValueEq(a: Value, b: Value) {
    (a.Empty? && b.Empty?) || Raw(a) == Raw(b)
  }

  function Which(p: Payload): nat {
    match p
    case Int32(_) => 0
    case Str(_) => 1
    case Bool(_) => 2
    case Int32List(_) => 3
    case StrList(_) => 4
    case BoolList(_) => 5
  }

  /** ConfigValue::TypeCheck: the type index is compared even when a side is empty. */
  predicate SameType(a: Value, b: Value) {
    Which(Raw(a)) == Which(Raw(b))
  }

  /** The code's equality is finer than nothing but one confusion: no value and int32 0. */
  lemma ValueEqExact(a: Value, b: Value)
    ensures ValueEq(a, b) <==>
            a == b || (a.Empty? && b == Of(Int32(0))) || (b.Empty? && a == Of(Int32(0)))
    ensures ValueEq(a, b) ==> SameType(a, b)
  {
  }

  /** Two payloads have one type exactly if they are of one alternative, and no value has the type of an int32. */
  lemma SameTypeIff(p: Payload, q: Payload)
    ensures SameType(Of(p), Of(q)) <==>
            || (p.Int32? && q.Int32?) || (p.Str? && q.Str?) || (p.Bool? && q.Bool?)
            || (p.Int32List? && q.Int32List?) || (p.StrList? && q.StrList?) || (p.BoolList? && q.BoolList?)
    ensures SameType(Empty, Of(p)) <==> p.Int32?
    ensures SameType(Of(p), Empty) <==> p.Int32?
    ensures SameType(Empty, Empty)
  {
  }

  // ----- Splitting and joining -----

  function Split(s: string, d: char): (r: seq<string>)
    ensures |r| >= 1
    ensures forall p | p in r :: d !in p
  {
    if s == "" then [""]
    else
      var r := Split(s[1..], d);
      if s[0] == d then [""] + r else [[s[0]] + r[0]] + r[1..]
  }

  function Join(parts: seq<string>, d: char): string {
    if parts == [] then ""
    else if |parts| == 1 then parts[0]
    else parts[0] + [d] + Join(parts[1..], d)
  }

  lemma JoinGrow(c: char, parts: seq<string>, d: char)
    requires parts != []
    ensures Join([[c] + parts[0]] + parts[1..], d) == [c] + Join(parts, d)
  {
    var grown := [[c] + parts[0]] + parts[1..];
    assert grown[1..] == parts[1..];
    if |parts| > 1 {
      assert Join(grown, d) == [c] + parts[0] + [d] + Join(parts[1..], d);
      assert [c] + parts[0] + [d] + Join(parts[1..], d) == [c] + (parts[0] + [d] + Join(parts[1..], d));
    }
  }

  lemma {:induction false} JoinSplit(s: string, d: char)
    ensures Join(Split(s, d), d) == s
  {
    if s != "" {
      var r := Split(s[1..], d);
      JoinSplit(s[1..], d);
      if s[0] == d {
        var whole := [""] + r;
        assert whole[1..] == r;
        assert Join(whole, d) == [d] + s[1..];
      } else {
        JoinGrow(s[0], r, d);
      }
    }
  }

  lemma {:induction false} SplitPrefix(p: string, s: string, d: char)
    requires d !in p
    ensures Split(p + [d] + s, d) == [p] + Split(s, d)
  {
    var t := p + [d] + s;
    if p == "" {
      assert t[1..] == s;
    } else {
      assert t[1..] == p[1..] + [d] + s;
      SplitPrefix(p[1..], s, d);
      assert [p[0]] + p[1..] == p;
    }
  }

  lemma {:induction false} SplitPlain(p: string, d: char)
    requires d !in p
    ensures Split(p, d) == [p]
  {
    if p != "" {
      SplitPlain(p[1..], d);
      assert [p[0]] + p[1..] == p;
    }
  }

  lemma {:induction false} SplitJoin(parts: seq<string>, d: char)
    requires parts != [] && forall p | p in parts :: d !in p
    ensures Split(Join(parts, d), d) == parts
  {
    if |parts| == 1 {
      SplitPlain(parts[0], d);
    } else {
      SplitJoin(parts[1..], d);
      SplitPrefix(parts[0], Join(parts[1..], d), d);
    }
  }

  // ----- Keys -----

  predicate Parsed(k: seq<string>) {
    k != [] && forall p | p in k :: '.' !in p
  }

  /** A non-empty ConfigKey, possibly with "*" parts. */
  type Pattern = k: seq<string> | Parsed(k) witness ["*"]

  /** A non-empty ConfigKey without "*" parts: what can be stored. */
  type Key = k: seq<string> | Parsed(k) && "*" !in k witness ["a"]

  /** ConfigKey(const std::string&). */
  function Parse(s: string): seq<string> {
    if s == "" then [] else Split(s, '.')
  }

  function Render(k: seq<string>): string {
    Join(k, '.')
  }

  /** ConfigKey::ToString. */
  method ToString(k: seq<string>) returns (output: string)
    ensures output == Render(k)
  {
    output := "";
    var i := 0;
    while i < |k|
      invariant 0 <= i <= |k|
      invariant Render(k) == output + Render(k[i..])
    {
      output := output + k[i];
      if i != |k| - 1 {
        output := output + ".";
      }
      assert k[i..][1..] == k[i + 1..];
      i := i + 1;
    }
  }

  lemma RenderParse(s: string)
    ensures Render(Parse(s)) == s
  {
    JoinSplit(s, '.');
  }

  /** A key is printed part after part, with a dot between. */
  lemma {:induction false} RenderSnoc(k: seq<string>, last: string)
    ensures Render(k + [last]) == if k == [] then last else Render(k) + "." + last
  {
    if k == [] {
      assert k + [last] == [last];
    } else {
      RenderSnoc(k[1..], last);
      assert (k + [last])[1..] == k[1..] + [last];
      if |k| > 1 {
        assert k[0] + ['.'] + (Render(k[1..]) + "." + last) == k[0] + ['.'] + Render(k[1..]) + "." + last;
      }
    }
  }

  /** Only the key made of one empty part fails to survive printing and parsing. */
  lemma ParseRender(k: Pattern)
    ensures Parse(Render(k)) == k <==> k != [""]
    ensures k == [""] ==> Parse(Render(k)) == []
  {
    SplitJoin(k, '.');
  }

  lemma RenderInjective(j: Pattern, k: Pattern)
    requires Render(j) == Render(k)
    ensures j == k
  {
    SplitJoin(j, '.');
    SplitJoin(k, '.');
  }

  const LAST: string := "last"
  const DEFAULT: string := "default"

  predicate InNamespace(k: seq<string>, ns: string) {
    |k| >= 2 && k[0] == ns
  }

  predicate InLast(k: Key) { InNamespace(k, LAST) }
  predicate InDefault(k: Key) { InNamespace(k, DEFAULT) }

  /** The key `last.<k>`, built by printing and parsing as SaveLastItems does. */
  function LastKey(k: Key): (r: Key)
    ensures r == ["last"] + k
    ensures InLast(r)
  {
    LastKeyShape(k);
    Parse("last." + Render(k))
  }

  lemma LastKeyShape(k: Key)
    ensures Parse("last." + Render(k)) == [LAST] + k
    ensures Parsed([LAST] + k) && "*" !in [LAST] + k
  {
    assert "last." + Render(k) == "last" + ['.'] + Render(k);
    SplitPrefix("last", Render(k), '.');
    SplitJoin(k, '.');
    assert LAST != "*" by { assert |LAST| == 4; }
  }

  /** The keys of the two namespaces, spelled out. */
  lemma Namespaces(k: Key)
    ensures InLast(k) <==> |k| >= 2 && k[0] == "last"
    ensures InDefault(k) <==> |k| >= 2 && k[0] == "default"
  {
  }

  // ----- Wildcards -----

  /** ConfigKey::IsWildcard. */
  predicate IsWildcard(k: Pattern) {
    "*" in k
  }

  predicate PartMatches(mine: string, theirs: string) {
    mine == theirs || mine == "*" || theirs == "*"
  }

  predicate Matches(me: Pattern, them: Pattern) {
    && (forall i | 0 <= i < |me| && i < |them| :: PartMatches(me[i], them[i]))
    && (|me| < |them| ==> me[|me| - 1] == "*")
  }

  /** ConfigKey::SubkeyMatches. */
  method SubkeyMatches(me: Pattern, them: Pattern) returns (r: bool)
    ensures r <==> Matches(me, them)
  {
    var i := 0;
    while i < |me| && i < |them|
      invariant 0 <= i <= |me| && i <= |them|
      invariant forall j | 0 <= j < i :: PartMatches(me[j], them[j])
    {
      if !(me[i] == them[i] || me[i] == "*" || them[i] == "*") {
        return false;
      }
      i := i + 1;
    }
    if i == |me| && i != |them| && me[|me| - 1] != "*" {
      return false;
    }
    return true;
  }

  /** For a concrete key: the pattern is no longer than the key and matches it part by part. */
  lemma {:induction false} ConcreteMatches(k: Key, pattern: Pattern)
    ensures Matches(k, pattern) <==>
            |pattern| <= |k| && forall i | 0 <= i < |pattern| :: pattern[i] == "*" || pattern[i] == k[i]
  {
    assert forall i | 0 <= i < |k| :: k[i] in k && k[i] != "*";
  }

  lemma NamespacePattern(k: Key, ns: string)
    requires '.' !in ns && ns != "*"
    ensures Parsed([ns, "*"])
    ensures Matches(k, [ns, "*"]) <==> InNamespace(k, ns)
  {
    assert Parsed([ns, "*"]);
    ConcreteMatches(k, [ns, "*"]);
  }

  /** `key.SubkeyMatches(ConfigKey(ns + ".*"))`, as the code writes it for last.* and default.*. */
  method MatchesNamespace(k: Key, ns: string) returns (r: bool)
    requires '.' !in ns && ns != "*"
    ensures r <==> InNamespace(k, ns)
  {
    NamespacePattern(k, ns);
    r := SubkeyMatches(k, [ns, "*"]);
  }
}
