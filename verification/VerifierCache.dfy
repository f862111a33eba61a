/** Unambiguous framing of the fields a cache key is derived from. */
module CacheKey {
  import opened Numerals

  const CACHE_KEY_DOMAIN_TAG: string := "harpocrates:verifier-cache:v1"

  /** Bytes of one character in UTF-8. */
  function CharBytes(c: char): (n: nat)
    ensures 1 <= n <= 4
  {
    if c < 0x80 as char then 1 else if c < 0x800 as char then 2 else if (c as int) < 0x1_0000 then 3 else 4
  }

  function ByteLength(s: string): nat
  {
    if s == [] then 0 else CharBytes(s[0]) + ByteLength(s[1..])
  }

  /** A field behind its byte length. */
  function Field(value: string): string
  {
    Decimal(ByteLength(value)) + ":" + value
  }

  function Payload(fields: seq<string>): string
  {
    if fields == [] then "" else Payload(fields[..|fields| - 1]) + Field(fields[|fields| - 1])
  }

  lemma {:induction false} PayloadFront(fields: seq<string>)
    requires fields != []
    ensures Payload(fields) == Field(fields[0]) + Payload(fields[1..])
    decreases |fields|
  {
    var n := |fields| - 1;
    var first, last := Field(fields[0]), Field(fields[n]);
    if n == 0 {
      assert fields[..0] == [] && fields[1..] == [];
      assert "" + first == first + "";
    } else {
      PayloadFront(fields[..n]);
      var middle := fields[1..][..n - 1];
      assert fields[..n][1..] == middle;
      assert Payload(fields[1..]) == Payload(middle) + last;
      Associative(first, Payload(middle), last);
    }
  }

  lemma Associative(a: string, b: string, c: string)
    ensures (a + b) + c == a + (b + c)
  {
  }

  /** The first colon ends the length. */
  lemma ColonSplit(x: string, r: string, y: string, s: string)
    requires x + ":" + r == y + ":" + s
    requires ':' !in x && ':' !in y
    ensures x == y && r == s
  {
    var u, v := x + ":" + r, y + ":" + s;
    assert u[|x|] == ':' && v[|y|] == ':';
    assert x == u[..|x|] && y == v[..|y|];
    assert r == u[|x| + 1..] && s == v[|y| + 1..];
  }

  lemma {:induction false} ByteLengthConcat(a: string, b: string)
    ensures ByteLength(a + b) == ByteLength(a) + ByteLength(b)
  {
    if a == [] {
      assert a + b == b;
    } else {
      assert (a + b)[1..] == a[1..] + b;
      ByteLengthConcat(a[1..], b);
    }
  }

  /** Two prefixes of one text with the same number of bytes are the same prefix. */
  lemma SameBytesSamePrefix(v: string, r: string, u: string, s: string)
    requires v + r == u + s && ByteLength(v) == ByteLength(u)
    ensures v == u && r == s
  {
    if |v| < |u| {
      PrefixShorter(v, r, u, s);
    } else if |u| < |v| {
      PrefixShorter(u, s, v, r);
    } else {
      assert v == (v + r)[..|v|] && u == (u + s)[..|u|];
      assert r == (v + r)[|v|..] && s == (u + s)[|u|..];
    }
  }

  lemma PrefixShorter(v: string, r: string, u: string, s: string)
    requires v + r == u + s && |v| < |u|
    ensures ByteLength(v) < ByteLength(u)
  {
    assert u == (u + s)[..|u|] == (v + r)[..|u|];
    assert u == v + u[|v|..];
    ByteLengthConcat(v, u[|v|..]);
  }

  lemma FieldSplit(v: string, r: string, u: string, s: string)
    requires Field(v) + r == Field(u) + s
    ensures v == u && r == s
  {
    var x, y := Decimal(ByteLength(v)), Decimal(ByteLength(u));
    assert Field(v) + r == x + ":" + (v + r);
    assert Field(u) + s == y + ":" + (u + s);
    ColonSplit(x, v + r, y, u + s);
    DecimalInjective(ByteLength(v), ByteLength(u));
    SameBytesSamePrefix(v, r, u, s);
  }

  /** Different field lists never frame to the same payload, whatever characters the fields contain. */
  lemma {:induction false} PayloadInjective(a: seq<string>, b: seq<string>)
    requires Payload(a) == Payload(b)
    ensures a == b
    decreases |a|
  {
    if a == [] || b == [] {
      PayloadEmpty(a);
      PayloadEmpty(b);
    } else {
      PayloadFront(a);
      PayloadFront(b);
      FieldSplit(a[0], Payload(a[1..]), b[0], Payload(b[1..]));
      PayloadInjective(a[1..], b[1..]);
    }
  }

  lemma PayloadEmpty(a: seq<string>)
    ensures Payload(a) == "" <==> a == []
  {
  }

  datatype Query = Query(domain: string, network: string, circuit: string, verifier: string,
                         proof: string, inputs: string)

  /** SHA-256 and the trimming and lower-casing of hexadecimal fields. */
  datatype KeyEnv = KeyEnv(sha: string -> string, normalise: string -> string)

  /** The seven fields in the order they are hashed. */
  function Fields(env: KeyEnv, q: Query): seq<string>
  {
    [CACHE_KEY_DOMAIN_TAG, q.domain, q.network, q.circuit, q.verifier, env.normalise(q.proof), env.normalise(q.inputs)]
  }

  function KeyOf(env: KeyEnv, q: Query): string
  {
    env.sha(Payload(Fields(env, q)))
  }

  /** No two of the queries frame to different texts with one digest. */
  ghost predicate NoCollision(env: KeyEnv, qs: set<Query>)
  {
    forall p, q :: p in qs && q in qs && KeyOf(env, p) == KeyOf(env, q) ==>
      Payload(Fields(env, p)) == Payload(Fields(env, q))
  }

  /** Agreement in domain, network, circuit and verifier, and in proof and inputs up to normalisation. */
  predicate SameQuery(env: KeyEnv, p: Query, q: Query)
  {
    && p.domain == q.domain && p.network == q.network && p.circuit == q.circuit && p.verifier == q.verifier
    && env.normalise(p.proof) == env.normalise(q.proof) && env.normalise(p.inputs) == env.normalise(q.inputs)
  }

  lemma FieldsIff(env: KeyEnv, p: Query, q: Query)
    ensures Fields(env, p) == Fields(env, q) <==> SameQuery(env, p, q)
  {
    var f, g := Fields(env, p), Fields(env, q);
    if f == g {
      assert f[1] == g[1] && f[2] == g[2] && f[3] == g[3] && f[4] == g[4] && f[5] == g[5] && f[6] == g[6];
    }
  }

  /** Two queries share a key exactly when all six of these agree. */
  lemma KeyIff(env: KeyEnv, qs: set<Query>, p: Query, q: Query)
    requires NoCollision(env, qs) && p in qs && q in qs
    ensures KeyOf(env, p) == KeyOf(env, q) <==> SameQuery(env, p, q)
  {
    FieldsIff(env, p, q);
    if KeyOf(env, p) == KeyOf(env, q) {
      PayloadInjective(Fields(env, p), Fields(env, q));
    }
  }

  /** The hashed text starts with the tag of the scheme, behind its length. */
  lemma PayloadTagged(env: KeyEnv, q: Query)
    ensures Field("harpocrates:verifier-cache:v1") <= Payload(Fields(env, q))
  {
    PayloadFront(Fields(env, q));
  }
}

/** The bounded verifier cache: insertion-ordered entries with their own expiry and an index from proof
    identifiers to keys. */
module VerifierCache {
  import opened Outcomes

  type Key = string

  datatype Entry = Entry(key: Key, verdict: bool, expires: real)

  datatype Config = Config(maxSize: int, positiveTtl: real, negativeTtl: real)

  /** Entries from the least to the most recently touched, and the keys stored under each proof identifier. */
  datatype Cache = Cache(entries: seq<Entry>, index: map<string, set<Key>>)

  const EMPTY: Cache := Cache([], map[])

  function Find(es: seq<Entry>, k: Key): (r: Option<Entry>)
    ensures r.Some? ==> r.value in es && r.value.key == k
  {
    if es == [] then None else if es[0].key == k then Some(es[0]) else Find(es[1..], k)
  }

  /** The entries whose keys are not in ks, in order. */
  function Without(es: seq<Entry>, ks: set<Key>): (r: seq<Entry>)
    ensures |r| <= |es|
  {
    if es == [] then []
    else if es[0].key in ks then Without(es[1..], ks)
    else [es[0]] + Without(es[1..], ks)
  }

  function KeysUnder(index: map<string, set<Key>>, proof: string): set<Key>
  {
    if proof in index then index[proof] else {}
  }

  /** Forget k under a proof identifier; an empty identifier stands for none. */
  function Discard(index: map<string, set<Key>>, proof: string, k: Key): map<string, set<Key>>
  {
    if proof != "" && proof in index then index[proof := index[proof] - {k}] else index
  }

  function Ttl(cfg: Config, verdict: bool): real
  {
    if verdict then cfg.positiveTtl else cfg.negativeTtl
  }

  function Get(c: Cache, k: Key, proof: string, now: real): (Option<bool>, Cache)
  {
    var e := Find(c.entries, k);
    if e.None? then (None, c)
    else if now < e.value.expires then
      (Some(e.value.verdict), Cache(Without(c.entries, {k}) + [e.value], Discard(c.index, proof, k)))
    else (None, c.(entries := Without(c.entries, {k})))
  }

  /** None when the cache may hold nothing and the eviction finds nothing to evict. */
  function Set(cfg: Config, c: Cache, k: Key, verdict: bool, proof: string, now: real): Option<Cache>
  {
    var present := Find(c.entries, k).Some?;
    if !present && |c.entries| >= cfg.maxSize && c.entries == [] then None
    else
      var kept := if present then Without(c.entries, {k})
                  else if |c.entries| >= cfg.maxSize then c.entries[1..] else c.entries;
      var index := if present then Discard(c.index, proof, k) else c.index;
      Some(Cache(kept + [Entry(k, verdict, now + Ttl(cfg, verdict))],
                 if proof == "" then index else index[proof := KeysUnder(index, proof) + {k}]))
  }

  function Invalidate(c: Cache, k: Key, proof: string): Cache
  {
    Cache(Without(c.entries, {k}),
          if proof == "" || KeysUnder(c.index, proof) == {} then c.index
          else if c.index[proof] - {k} == {} then c.index - {proof}
          else c.index[proof := c.index[proof] - {k}])
  }

  function InvalidateProof(c: Cache, proof: string): Cache
  {
    Cache(Without(c.entries, KeysUnder(c.index, proof)), c.index - {proof})
  }

  // ----- the object; each method receives the key that KeyOf derives from its query

  class VerifierCacheObject {
    const cfg: Config
    var entries: seq<Entry>
    var proofKeys: map<string, set<Key>>

    function State(): Cache
      reads this
    {
      Cache(entries, proofKeys)
    }

    constructor (cfg: Config)
      ensures this.cfg == cfg && State() == EMPTY
    {
      this.cfg := cfg;
      entries, proofKeys := [], map[];
    }

    method Lookup(key: Key, proof: string, now: real) returns (r: Option<bool>)
      modifies this
      ensures (r, State()) == Get(old(State()), key, proof, now)
    {
      var entry := Find(entries, key);
      if entry.Some? {
        if now < entry.value.expires {
          entries := Without(entries, {key});
          if proof != "" && proof in proofKeys {
            proofKeys := proofKeys[proof := proofKeys[proof] - {key}];
          }
          entries := entries + [entry.value];
          return Some(entry.value.verdict);
        }
        entries := Without(entries, {key});
      }
      r := None;
    }

    method Store(key: Key, verdict: bool, proof: string, now: real) returns (ok: bool)
      modifies this
      ensures match Set(cfg, old(State()), key, verdict, proof, now)
              case Some(c) => ok && State() == c
              case None => !ok && State() == old(State())
    {
      var expiresAt := now + Ttl(cfg, verdict);
      if Find(entries, key).Some? {
        entries := Without(entries, {key});
        if proof != "" && proof in proofKeys {
          proofKeys := proofKeys[proof := proofKeys[proof] - {key}];
        }
      } else if |entries| >= cfg.maxSize {
        if entries == [] {
          return false;
        }
        entries := entries[1..];
      }
      entries := entries + [Entry(key, verdict, expiresAt)];
      if proof != "" {
        proofKeys := proofKeys[proof := KeysUnder(proofKeys, proof) + {key}];
      }
      ok := true;
    }

    method Remove(key: Key, proof: string)
      modifies this
      ensures State() == Invalidate(old(State()), key, proof)
    {
      entries := Without(entries, {key});
      if proof != "" && proof in proofKeys && proofKeys[proof] != {} {
        proofKeys := proofKeys[proof := proofKeys[proof] - {key}];
        if proofKeys[proof] == {} {
          proofKeys := proofKeys - {proof};
          assert proofKeys == old(proofKeys) - {proof};
        }
      }
    }

    method RemoveProof(proof: string)
      modifies this
      ensures State() == InvalidateProof(old(State()), proof)
    {
      var keys := KeysUnder(proofKeys, proof);
      proofKeys := proofKeys - {proof};
      entries := Without(entries, keys);
    }

    method Clear()
      modifies this
      ensures State() == EMPTY
    {
      entries, proofKeys := [], map[];
    }
  }
}
