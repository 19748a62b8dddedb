/** Tag maps and the tag table: a stored map holds (key id, tag id) pairs; `tag_map_denormalize` turns
    it into keys and values, and the helper functions turn a comparison into stored pairs. */
module TagMap {
  import opened Wrappers
  import opened IterableJsonb
  import JsonbDigest

  datatype Tag = Tag(id: nat, keyId: nat, key: string, value: Json)

  /** The tag table with what its digest index is built on. */
  datatype Catalog = Catalog(tags: set<Tag>, pg: Postgres, sha512: seq<Byte> -> seq<Byte>) {
    ghost function Digest(j: Json): seq<Byte> {
      JsonbDigest.Digest(pg, sha512, j)
    }

    /** The primary key, the one id of every key, and the unique index on key and digest. */
    ghost predicate Valid() {
      && pg.Valid()
      && (forall s, t | s in tags && t in tags && s.id == t.id :: s == t)
      && (forall s, t | s in tags && t in tags :: s.keyId == t.keyId <==> s.key == t.key)
      && (forall s, t | s in tags && t in tags && s.key == t.key && Digest(s.value) == Digest(t.value) :: s == t)
    }

    /** Every pair of a stored map names a tag and that tag's key. */
    ghost predicate WellFormed(m: map<nat, nat>) {
      forall k | k in m :: exists t | t in tags :: t.id == m[k] && t.keyId == k
    }
  }

  // ---------- the SQL functions ----------

  ghost predicate Joined(c: Catalog, m: map<nat, nat>, t: Tag) {
    t in c.tags && exists k | k in m :: m[k] == t.id
  }

  /** `tag_map_denormalize(m) -> key` for a stored map. */
  ghost function Field(c: Catalog, m: map<nat, nat>, key: string): (r: Option<Json>)
    ensures r.None? ==> forall t | Joined(c, m, t) :: t.key != key
    ensures r.Some? ==> exists t | Joined(c, m, t) :: t.key == key && t.value == r.value
  {
    if t :| Joined(c, m, t) && t.key == key then Some(t.value) else None
  }

  /** `tag_v_eq_matching_tags`: the stored pair of the tag with this key and value, if there is one. */
  ghost predicate EqMatches(c: Catalog, t: Tag, key: string, value: Json) {
    t in c.tags && t.key == key && c.Digest(t.value) == c.Digest(value) && Same(t.value, value)
  }

  ghost function EqMatchingTags(c: Catalog, key: string, value: Json): (r: Option<map<nat, nat>>)
    ensures r.None? ==> forall t :: !EqMatches(c, t, key, value)
    ensures r.Some? ==> exists t | EqMatches(c, t, key, value) :: r.value == map[t.keyId := t.id]
  {
    if t :| EqMatches(c, t, key, value) then Some(map[t.keyId := t.id]) else None
  }

  /** `tag_v_ne_matching_tags`: the stored pairs of all tags with this key and another value. */
  ghost function NeMatchingTags(c: Catalog, key: string, value: Json): set<map<nat, nat>> {
    set t | t in c.tags && t.key == key && !Same(t.value, value) :: map[t.keyId := t.id]
  }

  /** `@>` on stored maps. */
  predicate Contains(m: map<nat, nat>, part: map<nat, nat>) {
    forall k | k in part :: k in m && m[k] == part[k]
  }

  // ---------- what they mean together ----------

  /** In a well-formed map the pair of a key names at most one tag. */
  lemma JoinedOnce(c: Catalog, m: map<nat, nat>, s: Tag, t: Tag)
    requires c.Valid() && c.WellFormed(m) && Joined(c, m, s) && Joined(c, m, t) && s.key == t.key
    ensures s == t
  {
  }

  /** A tag is part of a well-formed map exactly when the map holds the tag's own pair. */
  lemma StoredPair(c: Catalog, m: map<nat, nat>, t: Tag)
    requires c.Valid() && c.WellFormed(m) && t in c.tags
    ensures Joined(c, m, t) <==> Contains(m, map[t.keyId := t.id])
  {
    var pair := map[t.keyId := t.id];
    if Joined(c, m, t) {
      var k :| k in m && m[k] == t.id;
      var u :| u in c.tags && u.id == m[k] && u.keyId == k;
      assert u == t;
    }
    if Contains(m, pair) {
      assert t.keyId in pair;
    }
  }

  lemma FieldOf(c: Catalog, m: map<nat, nat>, t: Tag)
    requires c.Valid() && c.WellFormed(m) && Joined(c, m, t)
    ensures Field(c, m, t.key) == Some(t.value)
  {
    var u :| Joined(c, m, u) && u.key == t.key && Field(c, m, t.key) == Some(u.value);
    JoinedOnce(c, m, u, t);
  }

  lemma SameDigest(c: Catalog, a: Json, b: Json)
    requires c.Valid() && Same(a, b)
    ensures c.Digest(a) == c.Digest(b)
  {
    SameTokens(c.pg, a, b);
  }

  lemma TagOfField(c: Catalog, m: map<nat, nat>, key: string) returns (t: Tag)
    requires Field(c, m, key).Some?
    ensures Joined(c, m, t) && t.key == key && t.value == Field(c, m, key).value
  {
    t :| Joined(c, m, t) && t.key == key && t.value == Field(c, m, key).value;
  }

  lemma EqMatchesOnce(c: Catalog, t: Tag, u: Tag, key: string, value: Json)
    requires c.Valid() && EqMatches(c, t, key, value) && EqMatches(c, u, key, value)
    ensures t == u
  {
  }

  lemma TagOfHelper(c: Catalog, key: string, value: Json) returns (t: Tag)
    requires EqMatchingTags(c, key, value).Some?
    ensures EqMatches(c, t, key, value) && EqMatchingTags(c, key, value).value == map[t.keyId := t.id]
  {
    t :| EqMatches(c, t, key, value) && EqMatchingTags(c, key, value).value == map[t.keyId := t.id];
  }

  /** The helper finds a matching tag whenever there is one. */
  lemma EqHelper(c: Catalog, t: Tag, key: string, value: Json)
    requires c.Valid() && t in c.tags && t.key == key && Same(t.value, value)
    ensures EqMatchingTags(c, key, value) == Some(map[t.keyId := t.id])
  {
    SameDigest(c, t.value, value);
    assert EqMatches(c, t, key, value);
    var u := TagOfHelper(c, key, value);
    EqMatchesOnce(c, t, u, key, value);
  }

  /** `denormalize(m) -> key = value` holds exactly when there is a matching tag and `m` contains its pair. */
  lemma EqIsContainment(c: Catalog, m: map<nat, nat>, key: string, value: Json)
    requires c.Valid() && c.WellFormed(m)
    ensures var field, helper := Field(c, m, key), EqMatchingTags(c, key, value);
            (field.Some? && Same(field.value, value)) <==> (helper.Some? && Contains(m, helper.value))
  {
    var field, helper := Field(c, m, key), EqMatchingTags(c, key, value);
    if field.Some? && Same(field.value, value) {
      var t := TagOfField(c, m, key);
      EqHelper(c, t, key, value);
      StoredPair(c, m, t);
    }
    if helper.Some? && Contains(m, helper.value) {
      var u := TagOfHelper(c, key, value);
      StoredPair(c, m, u);
      FieldOf(c, m, u);
    }
  }

  /** `denormalize(m) -> key <> value` holds exactly when `m` contains the pair of some tag of another value. */
  lemma NeIsAnyContainment(c: Catalog, m: map<nat, nat>, key: string, value: Json)
    requires c.Valid() && c.WellFormed(m)
    ensures var field := Field(c, m, key);
            (field.Some? && !Same(field.value, value)) <==>
              exists part | part in NeMatchingTags(c, key, value) :: Contains(m, part)
  {
    var field := Field(c, m, key);
    if field.Some? && !Same(field.value, value) {
      var t := TagOfField(c, m, key);
      StoredPair(c, m, t);
      assert map[t.keyId := t.id] in NeMatchingTags(c, key, value);
    }
    if part :| part in NeMatchingTags(c, key, value) && Contains(m, part) {
      var t :| t in c.tags && t.key == key && !Same(t.value, value) && part == map[t.keyId := t.id];
      StoredPair(c, m, t);
      FieldOf(c, m, t);
    }
  }
}
