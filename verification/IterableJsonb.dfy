/** JSON values as `jsonb` stores them, the event stream of `JsonbIteratorNext`, and the token
    iterator built on it. */
module IterableJsonb {
  import opened Wrappers

  type Byte = b: int | 0 <= b < 256
  type Text = seq<Byte>

  /** A `numeric`: the value `unscaled / 10^scale`, keeping trailing fractional zeroes. */
  datatype Numeric = Numeric(unscaled: int, scale: nat)

  function Pow10(n: nat): nat {
    if n == 0 then 1 else 10 * Pow10(n - 1)
  }

  predicate SameNumber(a: Numeric, b: Numeric) {
    a.unscaled * Pow10(b.scale) == b.unscaled * Pow10(a.scale)
  }

  datatype Json =
    | JNull
    | JBool(b: bool)
    | JString(s: Text)
    | JNumber(n: Numeric)
    | JArray(items: seq<Json>)
    | JObject(members: map<Text, Json>)
  {
    predicate IsScalar() { !JArray? && !JObject? }
  }

  predicate NoZero(s: Text) {
    forall i | 0 <= i < |s| :: s[i] != 0
  }

  /** Strings and keys of a stored document contain no zero byte. */
  ghost predicate Storable(j: Json) {
    match j
    case JString(s) => NoZero(s)
    case JArray(items) => forall x | x in items :: Storable(x)
    case JObject(ms) => forall k | k in ms :: NoZero(k) && Storable(ms[k])
    case _ => true
  }

  /** Semantic equality: numbers by value, objects without regard to member order. */
  ghost predicate Same(a: Json, b: Json) {
    match (a, b)
    case (JNumber(m), JNumber(n)) => SameNumber(m, n)
    case (JArray(xs), JArray(ys)) => |xs| == |ys| && forall i | 0 <= i < |xs| :: Same(xs[i], ys[i])
    case (JObject(ms), JObject(ns)) => ms.Keys == ns.Keys && forall k | k in ms :: Same(ms[k], ns[k])
    case _ => a == b
  }

  predicate NoDuplicates(s: seq<Text>) {
    forall i, j | 0 <= i < j < |s| :: s[i] != s[j]
  }

  /** What the encoding takes from PostgreSQL: a fixed order for the keys of an object, and a text
      for numbers that is equal exactly when the numbers are equal. */
  datatype Postgres = Postgres(order: set<Text> -> seq<Text>, normalize: Numeric -> Text) {
    ghost predicate Valid() {
      && (forall ks, k :: k in order(ks) <==> k in ks)
      && (forall ks :: NoDuplicates(order(ks)))
      && (forall a, b :: normalize(a) == normalize(b) <==> SameNumber(a, b))
      && (forall a :: NoZero(normalize(a)))
    }
  }

  // ---------- the underlying iterator ----------

  datatype Raw =
    | WjbBeginArray(rawScalar: bool)
    | WjbEndArray
    | WjbBeginObject
    | WjbEndObject
    | WjbKey(key: Text)
    | WjbElem(scalar: Json)
    | WjbValue(scalar: Json)

  function RawItems(pg: Postgres, items: seq<Json>): seq<Raw>
    decreases items, 0
  {
    if items == [] then []
    else (if items[0].IsScalar() then [WjbElem(items[0])] else RawContainer(pg, items[0])) + RawItems(pg, items[1..])
  }

  function RawMembers(pg: Postgres, j: Json, keys: seq<Text>): seq<Raw>
    requires j.JObject?
    decreases j, 0, |keys|
  {
    if keys == [] || keys[0] !in j.members then []
    else
      var v := j.members[keys[0]];
      [WjbKey(keys[0])] + (if v.IsScalar() then [WjbValue(v)] else RawContainer(pg, v)) + RawMembers(pg, j, keys[1..])
  }

  function RawContainer(pg: Postgres, j: Json): seq<Raw>
    requires !j.IsScalar()
    decreases j, 1
  {
    match j
    case JArray(items) => [WjbBeginArray(false)] + RawItems(pg, items) + [WjbEndArray]
    case JObject(ms) => [WjbBeginObject] + RawMembers(pg, j, pg.order(ms.Keys)) + [WjbEndObject]
  }

  /** A scalar document is stored as an array of one element that is marked as a raw scalar. */
  function RawDocument(pg: Postgres, j: Json): seq<Raw> {
    if j.IsScalar() then [WjbBeginArray(true), WjbElem(j), WjbEndArray] else RawContainer(pg, j)
  }

  // ---------- tokens ----------

  datatype Token =
    | BeginArray
    | EndArray
    | BeginObject
    | EndObject
    | Key(key: Text)
    | Null
    | Bool(b: bool)
    | String(s: Text)
    | Number(text: Text)

  /** `extract_value_token` */
  function ScalarToken(pg: Postgres, j: Json): Token
    requires j.IsScalar()
  {
    match j
    case JNull => Null
    case JBool(b) => Bool(b)
    case JString(s) => String(s)
    case JNumber(n) => Number(pg.normalize(n))
  }

  function ItemTokens(pg: Postgres, items: seq<Json>): seq<Token>
    decreases items, 0
  {
    if items == [] then [] else Tokens(pg, items[0]) + ItemTokens(pg, items[1..])
  }

  function MemberTokens(pg: Postgres, j: Json, keys: seq<Text>): seq<Token>
    requires j.JObject?
    decreases j, 0, |keys|
  {
    if keys == [] || keys[0] !in j.members then []
    else [Key(keys[0])] + Tokens(pg, j.members[keys[0]]) + MemberTokens(pg, j, keys[1..])
  }

  /** The tokens a document stands for. */
  function Tokens(pg: Postgres, j: Json): seq<Token>
    decreases j, 1
  {
    match j
    case JArray(items) => [BeginArray] + ItemTokens(pg, items) + [EndArray]
    case JObject(ms) => [BeginObject] + MemberTokens(pg, j, pg.order(ms.Keys)) + [EndObject]
    case _ => [ScalarToken(pg, j)]
  }

  // ---------- the token iterator ----------

  ghost predicate WellTyped(events: seq<Raw>) {
    forall e | e in events :: (e.WjbElem? || e.WjbValue?) ==> e.scalar.IsScalar()
  }

  /** What the iterator still has to emit: raw-scalar brackets are dropped. */
  function Emitted(pg: Postgres, events: seq<Raw>, rawScalar: bool): seq<Token>
    requires WellTyped(events)
  {
    if events == [] then []
    else
      var rest := events[1..];
      match events[0]
      case WjbBeginArray(true) => Emitted(pg, rest, true)
      case WjbBeginArray(false) => [BeginArray] + Emitted(pg, rest, rawScalar)
      case WjbEndArray => if rawScalar then Emitted(pg, rest, true) else [EndArray] + Emitted(pg, rest, false)
      case WjbBeginObject => [BeginObject] + Emitted(pg, rest, rawScalar)
      case WjbEndObject => [EndObject] + Emitted(pg, rest, rawScalar)
      case WjbKey(k) => [Key(k)] + Emitted(pg, rest, rawScalar)
      case WjbElem(x) => [ScalarToken(pg, x)] + Emitted(pg, rest, rawScalar)
      case WjbValue(x) => [ScalarToken(pg, x)] + Emitted(pg, rest, rawScalar)
  }

  class TokenIterator {
    const pg: Postgres
    const events: seq<Raw>
    var pos: nat
    var rawScalar: bool

    constructor (pg: Postgres, events: seq<Raw>)
      requires WellTyped(events)
      ensures Valid() && this.pg == pg && Remaining() == Emitted(pg, events, false)
    {
      this.pg, this.events, pos, rawScalar := pg, events, 0, false;
    }

    ghost predicate Valid()
      reads this
    {
      pos <= |events| && WellTyped(events)
    }

    ghost function Remaining(): seq<Token>
      requires Valid()
      reads this
    {
      Emitted(pg, events[pos..], rawScalar)
    }

    method Next() returns (token: Option<Token>)
      requires Valid()
      modifies this
      ensures Valid()
      ensures old(Remaining()) == if token.Some? then [token.value] + Remaining() else []
      decreases |events| - pos
    {
      if pos == |events| {
        return None;
      }
      assert events[pos..][1..] == events[pos + 1..];
      var r := events[pos];
      assert r in events;
      pos := pos + 1;
      match r {
        case WjbBeginArray(raw) =>
          if raw {
            rawScalar := true;
            token := Next();
          } else {
            token := Some(BeginArray);
          }
        case WjbEndArray =>
          if rawScalar {
            token := Next();
          } else {
            token := Some(EndArray);
          }
        case WjbBeginObject => token := Some(BeginObject);
        case WjbEndObject => token := Some(EndObject);
        case WjbKey(k) => token := Some(Key(k));
        case WjbElem(x) => token := Some(ScalarToken(pg, x));
        case WjbValue(x) => token := Some(ScalarToken(pg, x));
      }
    }
  }

  // ---------- the iterator emits the document's tokens ----------

  ghost predicate Plain(events: seq<Raw>) {
    WellTyped(events) && forall e | e in events :: e != WjbBeginArray(true)
  }

  lemma {:induction false} EmittedAppend(pg: Postgres, a: seq<Raw>, b: seq<Raw>)
    requires Plain(a) && WellTyped(b)
    ensures WellTyped(a + b) && Emitted(pg, a + b, false) == Emitted(pg, a, false) + Emitted(pg, b, false)
  {
    if a == [] {
      assert a + b == b;
    } else {
      assert forall e | e in a[1..] :: e in a;
      assert (a + b)[1..] == a[1..] + b && (a + b)[0] == a[0] && a[0] in a;
      EmittedAppend(pg, a[1..], b);
    }
  }

  lemma EmittedOne(pg: Postgres, e: Raw)
    requires Plain([e])
    ensures |Emitted(pg, [e], false)| == 1
    ensures e.WjbElem? || e.WjbValue? ==> Emitted(pg, [e], false) == [ScalarToken(pg, e.scalar)]
    ensures e.WjbEndArray? ==> Emitted(pg, [e], false) == [EndArray]
    ensures e.WjbEndObject? ==> Emitted(pg, [e], false) == [EndObject]
    ensures e.WjbBeginArray? ==> Emitted(pg, [e], false) == [BeginArray]
    ensures e.WjbBeginObject? ==> Emitted(pg, [e], false) == [BeginObject]
    ensures e.WjbKey? ==> Emitted(pg, [e], false) == [Key(e.key)]
  {
    assert e in [e];
    assert Emitted(pg, [e][1..], false) == [];
  }

  lemma {:induction false} ItemsEmit(pg: Postgres, items: seq<Json>)
    ensures var raw := RawItems(pg, items); Plain(raw) && Emitted(pg, raw, false) == ItemTokens(pg, items)
    decreases items, 0
  {
    if items != [] {
      ItemsEmit(pg, items[1..]);
      var first := if items[0].IsScalar() then [WjbElem(items[0])] else RawContainer(pg, items[0]);
      if items[0].IsScalar() {
        EmittedOne(pg, WjbElem(items[0]));
      } else {
        ContainerEmits(pg, items[0]);
      }
      EmittedAppend(pg, first, RawItems(pg, items[1..]));
    }
  }

  lemma {:induction false} MembersEmit(pg: Postgres, j: Json, keys: seq<Text>)
    requires j.JObject?
    ensures var raw := RawMembers(pg, j, keys); Plain(raw) && Emitted(pg, raw, false) == MemberTokens(pg, j, keys)
    decreases j, 0, |keys|
  {
    if keys != [] && keys[0] in j.members {
      var v := j.members[keys[0]];
      var value, rest := if v.IsScalar() then [WjbValue(v)] else RawContainer(pg, v), RawMembers(pg, j, keys[1..]);
      MembersEmit(pg, j, keys[1..]);
      if v.IsScalar() {
        EmittedOne(pg, WjbValue(v));
      } else {
        ContainerEmits(pg, v);
      }
      EmittedOne(pg, WjbKey(keys[0]));
      EmittedAppend(pg, [WjbKey(keys[0])], value);
      EmittedAppend(pg, [WjbKey(keys[0])] + value, rest);
    }
  }

  lemma Bracketed(pg: Postgres, first: Raw, body: seq<Raw>, last: Raw)
    requires Plain([first]) && Plain(body) && Plain([last])
    ensures var raw := [first] + body + [last];
            Plain(raw)
            && Emitted(pg, raw, false)
            == Emitted(pg, [first], false) + Emitted(pg, body, false) + Emitted(pg, [last], false)
  {
    assert first in [first] && last in [last];
    EmittedAppend(pg, [first], body);
    EmittedAppend(pg, [first] + body, [last]);
  }

  lemma {:induction false} ContainerEmits(pg: Postgres, j: Json)
    requires !j.IsScalar()
    ensures var raw := RawContainer(pg, j); Plain(raw) && Emitted(pg, raw, false) == Tokens(pg, j)
    decreases j, 1
  {
    match j
    case JArray(items) =>
      ItemsEmit(pg, items);
      EmittedOne(pg, WjbBeginArray(false));
      EmittedOne(pg, WjbEndArray);
      Bracketed(pg, WjbBeginArray(false), RawItems(pg, items), WjbEndArray);
    case JObject(ms) =>
      MembersEmit(pg, j, pg.order(ms.Keys));
      EmittedOne(pg, WjbBeginObject);
      EmittedOne(pg, WjbEndObject);
      Bracketed(pg, WjbBeginObject, RawMembers(pg, j, pg.order(ms.Keys)), WjbEndObject);
  }

  /** Iterating over a stored document emits exactly its tokens; a raw scalar loses its brackets. */
  lemma DocumentEmits(pg: Postgres, j: Json)
    ensures var raw := RawDocument(pg, j); WellTyped(raw) && Emitted(pg, raw, false) == Tokens(pg, j)
  {
    if j.IsScalar() {
      var raw := RawDocument(pg, j);
      assert raw[1..] == [WjbElem(j), WjbEndArray] && raw[1..][1..] == [WjbEndArray];
      assert Emitted(pg, [WjbEndArray], true) == Emitted(pg, [], true) == [];
    } else {
      ContainerEmits(pg, j);
    }
  }

  // ---------- token streams determine documents ----------

  lemma FirstToken(pg: Postgres, j: Json)
    ensures var t := Tokens(pg, j); t != [] && t[0] !in {EndArray, EndObject} && !t[0].Key?
    ensures j.IsScalar() <==> Tokens(pg, j)[0] !in {BeginArray, BeginObject}
    ensures Tokens(pg, j)[0] == BeginArray <==> j.JArray?
  {
  }

  /** What follows the first token of a document in front of `r`. */
  ghost function AfterFirst(pg: Postgres, j: Json, r: seq<Token>): seq<Token> {
    match j
    case JArray(items) => ItemTokens(pg, items) + ([EndArray] + r)
    case JObject(ms) => MemberTokens(pg, j, pg.order(ms.Keys)) + ([EndObject] + r)
    case _ => r
  }

  lemma FirstAndRest(pg: Postgres, j: Json, r: seq<Token>)
    ensures var stream := Tokens(pg, j) + r;
            stream[0] == Tokens(pg, j)[0] && stream[1..] == AfterFirst(pg, j, r)
  {
  }

  lemma SameScalar(pg: Postgres, a: Json, b: Json)
    requires pg.Valid() && a.IsScalar() && b.IsScalar() && ScalarToken(pg, a) == ScalarToken(pg, b)
    ensures Same(a, b)
  {
  }

  /** Token streams are a prefix code: a document can be read off the front of any stream. */
  lemma {:induction false} TokensPrefixFree(pg: Postgres, a: Json, b: Json, r: seq<Token>, s: seq<Token>)
    requires pg.Valid() && Tokens(pg, a) + r == Tokens(pg, b) + s
    ensures Same(a, b) && r == s
    decreases a, 1
  {
    FirstToken(pg, a);
    FirstToken(pg, b);
    FirstAndRest(pg, a, r);
    FirstAndRest(pg, b, s);
    match a
    case JArray(items) =>
      ItemsPrefixFree(pg, items, b.items, r, s);
    case JObject(ms) =>
      var ka, kb := pg.order(ms.Keys), pg.order(b.members.Keys);
      MembersPrefixFree(pg, a, b, ka, kb, r, s);
      assert forall k :: k in ms.Keys <==> k in b.members.Keys;
    case _ =>
      SameScalar(pg, a, b);
  }

  lemma {:induction false} ItemsPrefixFree(pg: Postgres, xs: seq<Json>, ys: seq<Json>, r: seq<Token>, s: seq<Token>)
    requires pg.Valid() && ItemTokens(pg, xs) + ([EndArray] + r) == ItemTokens(pg, ys) + ([EndArray] + s)
    ensures |xs| == |ys| && r == s && forall i | 0 <= i < |xs| :: Same(xs[i], ys[i])
    decreases xs, 0
  {
    var left, right := ItemTokens(pg, xs) + ([EndArray] + r), ItemTokens(pg, ys) + ([EndArray] + s);
    if xs != [] {
      FirstToken(pg, xs[0]);
      assert left[0] == Tokens(pg, xs[0])[0];
    } else {
      assert left == [EndArray] + r;
    }
    if ys != [] {
      FirstToken(pg, ys[0]);
      assert right[0] == Tokens(pg, ys[0])[0];
    } else {
      assert right == [EndArray] + s;
    }
    if xs == [] {
      assert left[1..] == r && right[1..] == s;
    } else {
      var restX, restY := ItemTokens(pg, xs[1..]) + ([EndArray] + r), ItemTokens(pg, ys[1..]) + ([EndArray] + s);
      assert left == Tokens(pg, xs[0]) + restX && right == Tokens(pg, ys[0]) + restY;
      TokensPrefixFree(pg, xs[0], ys[0], restX, restY);
      ItemsPrefixFree(pg, xs[1..], ys[1..], r, s);
      assert forall i | 1 <= i < |xs| :: xs[i] == xs[1..][i - 1] && ys[i] == ys[1..][i - 1];
    }
  }

  lemma FirstMember(pg: Postgres, j: Json, keys: seq<Text>, r: seq<Token>)
    requires j.JObject? && forall k | k in keys :: k in j.members
    ensures var stream := MemberTokens(pg, j, keys) + ([EndObject] + r);
            if keys == [] then stream[0] == EndObject && stream[1..] == r
            else stream[0] == Key(keys[0]) &&
                 stream[1..] == Tokens(pg, j.members[keys[0]]) + (MemberTokens(pg, j, keys[1..]) + ([EndObject] + r))
  {
  }

  lemma {:induction false} MembersPrefixFree(pg: Postgres, a: Json, b: Json,
                                               ka: seq<Text>, kb: seq<Text>, r: seq<Token>, s: seq<Token>)
    requires pg.Valid() && a.JObject? && b.JObject?
    requires (forall k | k in ka :: k in a.members) && (forall k | k in kb :: k in b.members)
    requires MemberTokens(pg, a, ka) + ([EndObject] + r) == MemberTokens(pg, b, kb) + ([EndObject] + s)
    ensures ka == kb && r == s && forall k | k in ka :: Same(a.members[k], b.members[k])
    decreases a, 0, |ka|
  {
    FirstMember(pg, a, ka, r);
    FirstMember(pg, b, kb, s);
    if ka != [] {
      var restA := MemberTokens(pg, a, ka[1..]) + ([EndObject] + r);
      var restB := MemberTokens(pg, b, kb[1..]) + ([EndObject] + s);
      TokensPrefixFree(pg, a.members[ka[0]], b.members[kb[0]], restA, restB);
      MembersPrefixFree(pg, a, b, ka[1..], kb[1..], r, s);
      assert ka == [ka[0]] + ka[1..] && kb == [kb[0]] + kb[1..];
    }
  }

  /** Semantically equal documents have the same tokens. */
  lemma {:induction false} SameTokens(pg: Postgres, a: Json, b: Json)
    requires pg.Valid() && Same(a, b)
    ensures Tokens(pg, a) == Tokens(pg, b)
    decreases a, 1
  {
    match a
    case JArray(items) => SameItemTokens(pg, items, b.items);
    case JObject(ms) => SameMemberTokens(pg, a, b, pg.order(ms.Keys));
    case _ =>
  }

  lemma {:induction false} SameItemTokens(pg: Postgres, xs: seq<Json>, ys: seq<Json>)
    requires pg.Valid() && |xs| == |ys| && forall i | 0 <= i < |xs| :: Same(xs[i], ys[i])
    ensures ItemTokens(pg, xs) == ItemTokens(pg, ys)
    decreases xs, 0
  {
    if xs != [] {
      SameTokens(pg, xs[0], ys[0]);
      SameItemTokens(pg, xs[1..], ys[1..]);
    }
  }

  lemma {:induction false} SameMemberTokens(pg: Postgres, a: Json, b: Json, keys: seq<Text>)
    requires pg.Valid() && a.JObject? && b.JObject? && Same(a, b)
    ensures MemberTokens(pg, a, keys) == MemberTokens(pg, b, keys)
    decreases a, 0, |keys|
  {
    if keys != [] && keys[0] in a.members {
      SameTokens(pg, a.members[keys[0]], b.members[keys[0]]);
      SameMemberTokens(pg, a, b, keys[1..]);
    }
  }
}
