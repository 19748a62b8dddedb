/** The byte stream that `jsonb_digest` feeds to SHA-512: for every token its 8-byte little-endian
    index, a tag byte and the payload. Payloads carry no length. */
module JsonbDigest {
  import opened IterableJsonb

  // The smallest number whose eight bytes are all non-zero. Any index below it has a zero byte.
  const INDEX_LIMIT: nat := 0x0101_0101_0101_0101

  function ByteAt(n: nat, i: nat): Byte {
    if i == 0 then n % 256 else ByteAt(n / 256, i - 1)
  }

  /** `to_le_bytes` of an index. */
  function IndexBytes(n: nat): (r: seq<Byte>)
    ensures |r| == 8
  {
    seq(8, i requires 0 <= i < 8 => ByteAt(n, i))
  }

  function Tag(t: Token): Byte {
    match t
    case Null => 0x01
    case Bool(true) => 0x02
    case Bool(false) => 0x03
    case String(_) => 0x04
    case Number(_) => 0x05
    case Key(_) => 0x0A
    case BeginObject => 0x0B
    case EndObject => 0x0C
    case BeginArray => 0x0D
    case EndArray => 0x0E
  }

  function Payload(t: Token): Text {
    match t
    case String(s) => s
    case Number(s) => s
    case Key(s) => s
    case _ => []
  }

  function Chunk(t: Token, index: nat): seq<Byte> {
    IndexBytes(index) + [Tag(t)] + Payload(t)
  }

  /** The stream for `tokens`, the first of which has index `index`. */
  function Encode(tokens: seq<Token>, index: nat): seq<Byte> {
    if tokens == [] then [] else Chunk(tokens[0], index) + Encode(tokens[1..], index + 1)
  }

  lemma EncodeCons(fed: seq<Byte>, t: Token, rest: seq<Token>, index: nat)
    ensures fed + Encode([t] + rest, index) == fed + Chunk(t, index) + Encode(rest, index + 1)
  {
  }

  // ---------- the bytes, spelled out ----------

  /** The number that eight bytes are, the least significant one first. */
  function LittleEndian(bytes: seq<Byte>): nat {
    if bytes == [] then 0 else bytes[0] + 256 * LittleEndian(bytes[1..])
  }

  lemma {:induction false} BytesValue(n: nat, bytes: seq<Byte>, limit: nat)
    requires forall i | 0 <= i < |bytes| :: bytes[i] == ByteAt(n, i)
    requires n < limit && limit == Power256(|bytes|)
    ensures LittleEndian(bytes) == n
  {
    if bytes != [] {
      forall i | 0 <= i < |bytes| - 1 ensures bytes[1..][i] == ByteAt(n / 256, i) {
        assert bytes[i + 1] == ByteAt(n, i + 1);
      }
      BytesValue(n / 256, bytes[1..], Power256(|bytes| - 1));
      assert bytes[0] == ByteAt(n, 0) == n % 256;
    }
  }

  function Power256(k: nat): nat {
    if k == 0 then 1 else 256 * Power256(k - 1)
  }

  /** An index that fits in 64 bits is written as its eight bytes, the least significant one first. */
  lemma IndexIsLittleEndian(n: nat)
    requires n < 0x1_0000_0000_0000_0000
    ensures |IndexBytes(n)| == 8 && LittleEndian(IndexBytes(n)) == n
  {
    assert Power256(8) == 0x1_0000_0000_0000_0000;
    BytesValue(n, IndexBytes(n), Power256(8));
  }

  /** What is written for a document from index `n` on, and the index after it. */
  function Written(pg: Postgres, j: Json, n: nat): (seq<Byte>, nat)
    decreases j, 1
  {
    match j
    case JNull => (IndexBytes(n) + [0x01], n + 1)
    case JBool(b) => (IndexBytes(n) + [if b then 0x02 else 0x03], n + 1)
    case JString(s) => (IndexBytes(n) + [0x04] + s, n + 1)
    case JNumber(x) => (IndexBytes(n) + [0x05] + pg.normalize(x), n + 1)
    case JArray(items) =>
      var (body, end) := WrittenItems(pg, items, n + 1);
      (IndexBytes(n) + [0x0D] + body + (IndexBytes(end) + [0x0E]), end + 1)
    case JObject(ms) =>
      var (body, end) := WrittenMembers(pg, j, pg.order(ms.Keys), n + 1);
      (IndexBytes(n) + [0x0B] + body + (IndexBytes(end) + [0x0C]), end + 1)
  }

  function WrittenItems(pg: Postgres, items: seq<Json>, n: nat): (seq<Byte>, nat)
    decreases items, 0
  {
    if items == [] then ([], n)
    else
      var (first, next) := Written(pg, items[0], n);
      var (rest, end) := WrittenItems(pg, items[1..], next);
      (first + rest, end)
  }

  /** Every key with its value after it. */
  function WrittenMembers(pg: Postgres, j: Json, keys: seq<Text>, n: nat): (seq<Byte>, nat)
    requires j.JObject?
    decreases j, 0, |keys|
  {
    if keys == [] || keys[0] !in j.members then ([], n)
    else
      var (value, next) := Written(pg, j.members[keys[0]], n + 1);
      var (rest, end) := WrittenMembers(pg, j, keys[1..], next);
      (IndexBytes(n) + [0x0A] + keys[0] + value + rest, end)
  }

  lemma {:induction false} EncodeAppend(a: seq<Token>, b: seq<Token>, n: nat)
    ensures Encode(a + b, n) == Encode(a, n) + Encode(b, n + |a|)
  {
    if a == [] {
      assert a + b == b;
    } else {
      assert (a + b)[1..] == a[1..] + b;
      EncodeAppend(a[1..], b, n + 1);
    }
  }

  lemma EncodeOne(t: Token, n: nat)
    ensures Encode([t], n) == Chunk(t, n)
    ensures Payload(t) == [] ==> Encode([t], n) == IndexBytes(n) + [Tag(t)]
  {
    assert [t][1..] == [];
  }

  lemma EncodeThree(a: seq<Token>, b: seq<Token>, c: seq<Token>, n: nat)
    ensures Encode(a + b + c, n) == Encode(a, n) + Encode(b, n + |a|) + Encode(c, n + |a| + |b|)
  {
    EncodeAppend(a + b, c, n);
    EncodeAppend(a, b, n);
  }

  lemma EncodeBracketed(first: Token, body: seq<Token>, last: Token, n: nat)
    requires Payload(first) == Payload(last) == []
    ensures Encode([first] + body + [last], n)
         == IndexBytes(n) + [Tag(first)] + Encode(body, n + 1) + (IndexBytes(n + 1 + |body|) + [Tag(last)])
  {
    EncodeThree([first], body, [last], n);
    EncodeOne(first, n);
    EncodeOne(last, n + 1 + |body|);
  }

  lemma ScalarIsWritten(pg: Postgres, j: Json, n: nat)
    requires j.IsScalar()
    ensures Encode([ScalarToken(pg, j)], n) == Written(pg, j, n).0 && Written(pg, j, n).1 == n + 1
  {
    EncodeOne(ScalarToken(pg, j), n);
  }

  /** The preimage of a digest is exactly what is written for the document. */
  lemma {:induction false} TokensAreWritten(pg: Postgres, j: Json, n: nat)
    ensures Written(pg, j, n) == (Encode(Tokens(pg, j), n), n + |Tokens(pg, j)|)
    decreases j, 1
  {
    match j
    case JArray(items) =>
      ItemsAreWritten(pg, items, n + 1);
      EncodeBracketed(BeginArray, ItemTokens(pg, items), EndArray, n);
    case JObject(ms) =>
      MembersAreWritten(pg, j, pg.order(ms.Keys), n + 1);
      EncodeBracketed(BeginObject, MemberTokens(pg, j, pg.order(ms.Keys)), EndObject, n);
    case _ =>
      ScalarIsWritten(pg, j, n);
  }

  lemma {:induction false} ItemsAreWritten(pg: Postgres, items: seq<Json>, n: nat)
    ensures WrittenItems(pg, items, n) == (Encode(ItemTokens(pg, items), n), n + |ItemTokens(pg, items)|)
    decreases items, 0
  {
    if items != [] {
      var first := Tokens(pg, items[0]);
      TokensAreWritten(pg, items[0], n);
      ItemsAreWritten(pg, items[1..], n + |first|);
      EncodeAppend(first, ItemTokens(pg, items[1..]), n);
    }
  }

  lemma {:induction false} MembersAreWritten(pg: Postgres, j: Json, keys: seq<Text>, n: nat)
    requires j.JObject?
    ensures WrittenMembers(pg, j, keys, n) == (Encode(MemberTokens(pg, j, keys), n), n + |MemberTokens(pg, j, keys)|)
    decreases j, 0, |keys|
  {
    if keys != [] && keys[0] in j.members {
      var value := Tokens(pg, j.members[keys[0]]);
      var rest := MemberTokens(pg, j, keys[1..]);
      TokensAreWritten(pg, j.members[keys[0]], n + 1);
      MembersAreWritten(pg, j, keys[1..], n + 1 + |value|);
      EncodeAppend([Key(keys[0])] + value, rest, n);
      EncodeAppend([Key(keys[0])], value, n);
      EncodeOne(Key(keys[0]), n);
    }
  }

  class Hasher {
    var input: seq<Byte>

    constructor ()
      ensures input == []
    {
      input := [];
    }

    method Update(bytes: seq<Byte>)
      modifies this
      ensures input == old(input) + bytes
    {
      input := input + bytes;
    }

    method Finalize(sha512: seq<Byte> -> seq<Byte>) returns (digest: seq<Byte>)
      ensures digest == sha512(input)
    {
      digest := sha512(input);
    }
  }

  /** The digest as a function of the document. */
  function Digest(pg: Postgres, sha512: seq<Byte> -> seq<Byte>, j: Json): seq<Byte> {
    sha512(Encode(Tokens(pg, j), 0))
  }

  /** The body of the loop: one token into the hash. */
  method Feed(hasher: Hasher, token: Token, index: nat)
    modifies hasher
    ensures hasher.input == old(hasher.input) + Chunk(token, index)
  {
    hasher.Update(IndexBytes(index));
    match token {
      case Null => hasher.Update([0x01]);
      case Bool(b) => hasher.Update([if b then 0x02 else 0x03]);
      case String(s) => hasher.Update([0x04]); hasher.Update(s);
      case Number(s) => hasher.Update([0x05]); hasher.Update(s);
      case Key(s) => hasher.Update([0x0A]); hasher.Update(s);
      case BeginObject => hasher.Update([0x0B]);
      case EndObject => hasher.Update([0x0C]);
      case BeginArray => hasher.Update([0x0D]);
      case EndArray => hasher.Update([0x0E]);
    }
    Joined(old(hasher.input), IndexBytes(index), [Tag(token)], Payload(token));
  }

  lemma Joined(a: seq<Byte>, b: seq<Byte>, c: seq<Byte>, d: seq<Byte>)
    ensures a + b + c + d == a + (b + c + d)
    ensures a + b + c == a + (b + c + [])
  {
  }

  /** The loop of `jsonb_digest`. */
  method Consume(tokens: TokenIterator, hasher: Hasher)
    requires tokens.Valid() && hasher.input == []
    modifies tokens, hasher
    ensures hasher.input == Encode(old(tokens.Remaining()), 0)
  {
    ghost var all := Encode(tokens.Remaining(), 0);
    var index := 0;
    var token := tokens.Next();
    ghost var pending := old(tokens.Remaining());
    while token.Some?
      invariant tokens.Valid()
      invariant pending == if token.Some? then [token.value] + tokens.Remaining() else []
      invariant hasher.input + Encode(pending, index) == all
      decreases |pending|
    {
      EncodeCons(hasher.input, token.value, tokens.Remaining(), index);
      Feed(hasher, token.value, index);
      index := index + 1;
      pending := tokens.Remaining();
      token := tokens.Next();
    }
  }

  method Compute(pg: Postgres, sha512: seq<Byte> -> seq<Byte>, j: Json) returns (digest: seq<Byte>)
    ensures digest == Digest(pg, sha512, j) == sha512(Written(pg, j, 0).0)
  {
    DocumentEmits(pg, j);
    TokensAreWritten(pg, j, 0);
    var hasher := new Hasher();
    var tokens := new TokenIterator(pg, RawDocument(pg, j));
    Consume(tokens, hasher);
    digest := hasher.Finalize(sha512);
  }

  // ---------- decoding ----------

  function FirstZero(s: seq<Byte>): (z: nat)
    ensures z <= |s| && (z < |s| ==> s[z] == 0) && forall i | 0 <= i < z :: s[i] != 0
  {
    if s == [] || s[0] == 0 then 0 else 1 + FirstZero(s[1..])
  }

  lemma FirstZeroAppend(s: seq<Byte>, t: seq<Byte>)
    ensures FirstZero(s) < |s| ==> FirstZero(s + t) == FirstZero(s)
    ensures NoZero(s) ==> FirstZero(s + t) == |s| + FirstZero(t)
  {
    if s == [] {
      assert s + t == t;
    } else {
      assert (s + t)[1..] == s[1..] + t;
      FirstZeroAppend(s[1..], t);
    }
  }

  function AllOnes(count: nat): nat {
    if count == 0 then 0 else 1 + 256 * AllOnes(count - 1)
  }

  lemma {:induction false} NoZeroIsLarge(n: nat, count: nat)
    requires forall i | 0 <= i < count :: ByteAt(n, i) != 0
    ensures n >= AllOnes(count)
  {
    if count > 0 {
      assert ByteAt(n, 0) != 0;
      forall i | 0 <= i < count - 1 ensures ByteAt(n / 256, i) != 0 {
        assert ByteAt(n, i + 1) != 0;
      }
      NoZeroIsLarge(n / 256, count - 1);
    }
  }

  /** Every index of a stream of admissible length has a zero among its eight bytes. */
  lemma IndexHasZero(n: nat)
    requires n < INDEX_LIMIT
    ensures FirstZero(IndexBytes(n)) < 8
  {
    assert AllOnes(8) == INDEX_LIMIT;
    var s := IndexBytes(n);
    if forall i | 0 <= i < 8 :: s[i] != 0 {
      assert forall i | 0 <= i < 8 :: ByteAt(n, i) == s[i];
      NoZeroIsLarge(n, 8);
      assert false;
    }
  }

  ghost predicate ZeroFree(tokens: seq<Token>) {
    forall t | t in tokens :: NoZero(Payload(t))
  }

  lemma RestFirstZero(tokens: seq<Token>, index: nat)
    requires index < INDEX_LIMIT || tokens == []
    ensures var z := FirstZero(Encode(tokens, index));
            z == if tokens == [] then 0 else FirstZero(IndexBytes(index))
    ensures tokens != [] ==> FirstZero(Encode(tokens, index)) < |Encode(tokens, index)|
  {
    if tokens != [] {
      IndexHasZero(index);
      var rest := [Tag(tokens[0])] + Payload(tokens[0]) + Encode(tokens[1..], index + 1);
      assert Encode(tokens, index) == IndexBytes(index) + rest;
      FirstZeroAppend(IndexBytes(index), rest);
    }
  }

  /** A payload ends where the zero byte of the next index says it does. */
  lemma PayloadsAlign(p: Text, q: Text, a: seq<Token>, b: seq<Token>, index: nat)
    requires NoZero(p) && NoZero(q)
    requires (a == [] || index < INDEX_LIMIT) && (b == [] || index < INDEX_LIMIT)
    requires p + Encode(a, index) == q + Encode(b, index)
    ensures p == q && Encode(a, index) == Encode(b, index)
  {
    var ea, eb := Encode(a, index), Encode(b, index);
    RestFirstZero(a, index);
    RestFirstZero(b, index);
    FirstZeroAppend(p, ea);
    FirstZeroAppend(q, eb);
    assert |p| + |ea| == |p + ea| == |q + eb| == |q| + |eb|;
    assert p == (p + ea)[..|p|] && q == (q + eb)[..|q|];
    assert ea == (p + ea)[|p|..] && eb == (q + eb)[|q|..];
  }

  lemma Cut(h: seq<Byte>, tag: Byte, p: seq<Byte>, rest: seq<Byte>)
    requires |h| == 8
    ensures var e := h + [tag] + p + rest; e[8] == tag && e[9..] == p + rest
  {
  }

  /** A stream starts with the index, then the tag, then the payload and the rest. */
  lemma Parts(tokens: seq<Token>, index: nat)
    requires tokens != []
    ensures var e := Encode(tokens, index);
            && |e| >= 9 && e[8] == Tag(tokens[0])
            && e[9..] == Payload(tokens[0]) + Encode(tokens[1..], index + 1)
  {
    Cut(IndexBytes(index), Tag(tokens[0]), Payload(tokens[0]), Encode(tokens[1..], index + 1));
  }

  lemma SameHead(s: Token, t: Token)
    requires Tag(s) == Tag(t) && Payload(s) == Payload(t)
    ensures s == t
  {
  }

  lemma HeadsMatch(a: seq<Token>, b: seq<Token>, index: nat)
    requires a != [] && b != [] && NoZero(Payload(a[0])) && NoZero(Payload(b[0]))
    requires index + |a| <= INDEX_LIMIT && index + |b| <= INDEX_LIMIT
    requires Encode(a, index) == Encode(b, index)
    ensures a[0] == b[0] && Encode(a[1..], index + 1) == Encode(b[1..], index + 1)
  {
    Parts(a, index);
    Parts(b, index);
    PayloadsAlign(Payload(a[0]), Payload(b[0]), a[1..], b[1..], index + 1);
    SameHead(a[0], b[0]);
  }

  /** Equal byte streams come from equal token streams. */
  lemma {:induction false} EncodeInjective(a: seq<Token>, b: seq<Token>, index: nat)
    requires ZeroFree(a) && ZeroFree(b)
    requires index + |a| <= INDEX_LIMIT && index + |b| <= INDEX_LIMIT
    requires Encode(a, index) == Encode(b, index)
    ensures a == b
  {
    if a != [] && b != [] {
      assert a[0] in a && b[0] in b;
      HeadsMatch(a, b, index);
      EncodeInjective(a[1..], b[1..], index + 1);
      assert a == [a[0]] + a[1..] && b == [b[0]] + b[1..];
    }
  }

  // ---------- documents ----------

  lemma {:induction false} StorableTokens(pg: Postgres, j: Json)
    requires pg.Valid() && Storable(j)
    ensures ZeroFree(Tokens(pg, j))
    decreases j, 1
  {
    match j
    case JArray(items) => StorableItems(pg, items);
    case JObject(ms) => StorableMembers(pg, j, pg.order(ms.Keys));
    case _ =>
  }

  lemma {:induction false} StorableItems(pg: Postgres, items: seq<Json>)
    requires pg.Valid() && forall x | x in items :: Storable(x)
    ensures ZeroFree(ItemTokens(pg, items))
    decreases items, 0
  {
    if items != [] {
      StorableTokens(pg, items[0]);
      StorableItems(pg, items[1..]);
    }
  }

  lemma {:induction false} StorableMembers(pg: Postgres, j: Json, keys: seq<Text>)
    requires pg.Valid() && j.JObject? && Storable(j)
    ensures ZeroFree(MemberTokens(pg, j, keys))
    decreases j, 0, |keys|
  {
    if keys != [] && keys[0] in j.members {
      StorableTokens(pg, j.members[keys[0]]);
      StorableMembers(pg, j, keys[1..]);
    }
  }

  ghost predicate Digestible(pg: Postgres, j: Json) {
    Storable(j) && |Tokens(pg, j)| <= INDEX_LIMIT
  }

  /** Two documents feed the hash the same bytes exactly when they are semantically equal. */
  lemma PreimageIsSemantic(pg: Postgres, a: Json, b: Json)
    requires pg.Valid() && Digestible(pg, a) && Digestible(pg, b)
    ensures Encode(Tokens(pg, a), 0) == Encode(Tokens(pg, b), 0) <==> Same(a, b)
  {
    if Same(a, b) {
      SameTokens(pg, a, b);
    }
    if Encode(Tokens(pg, a), 0) == Encode(Tokens(pg, b), 0) {
      StorableTokens(pg, a);
      StorableTokens(pg, b);
      EncodeInjective(Tokens(pg, a), Tokens(pg, b), 0);
      TokensPrefixFree(pg, a, b, [], []);
    }
  }

  /** Save for hash collisions, two digests are equal exactly when the documents are: the encodings of
      unequal documents with equal digests are themselves a collision. */
  lemma DigestIsSemantic(pg: Postgres, sha512: seq<Byte> -> seq<Byte>, a: Json, b: Json)
    requires pg.Valid() && Digestible(pg, a) && Digestible(pg, b)
    ensures Same(a, b) ==> Digest(pg, sha512, a) == Digest(pg, sha512, b)
    ensures Digest(pg, sha512, a) == Digest(pg, sha512, b) && !Same(a, b) ==>
              var x, y := Encode(Tokens(pg, a), 0), Encode(Tokens(pg, b), 0);
              x != y && sha512(x) == sha512(y)
  {
    PreimageIsSemantic(pg, a, b);
  }
}
