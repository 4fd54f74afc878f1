/**
  `generate_signature`: the four upload parameters as `(key, value)` pairs,
  sorted, joined as `key=value` with `&`, followed directly by the secret; the
  UTF-8 bytes of that string are hashed with SHA-1 and the digest is rendered
  as lowercase hex.

  SHA-1 (FIPS 180-4) is library code and appears here as a parameter: any
  function from byte strings to 20-byte digests.
 */
module Signature {
  import opened Numerics
  import Utf8
  import Hex

  type Digest = d: seq<byte> | |d| == 20 witness seq(20, _ => 0)

  /** A `(&str, &str)` pair of the parameter list. */
  type Param = (string, string)

  /**
    Rust's ordering of `str`: lexicographic on the UTF-8 bytes, which is the same
    as lexicographic on the characters because UTF-8 preserves code point order.
   */
  predicate StrLe(a: string, b: string)
    decreases |a|
  {
    |a| == 0 || (|b| > 0 && if a[0] == b[0] then StrLe(a[1..], b[1..]) else a[0] < b[0])
  }

  /** The derived ordering of a pair: by key, then by value. */
  predicate ParamLe(p: Param, q: Param) {
    StrLe(p.0, q.0) && (p.0 == q.0 ==> StrLe(p.1, q.1))
  }

  predicate Sorted(ps: seq<Param>) {
    forall i, j :: 0 <= i < j < |ps| ==> ParamLe(ps[i], ps[j])
  }

  lemma {:induction false} StrLeTotal(a: string, b: string)
    ensures StrLe(a, b) || StrLe(b, a)
    decreases |a|
  {
    if |a| > 0 && |b| > 0 && a[0] == b[0] {
      StrLeTotal(a[1..], b[1..]);
    }
  }

  lemma {:induction false} StrLeAntisymmetric(a: string, b: string)
    requires StrLe(a, b) && StrLe(b, a)
    ensures a == b
    decreases |a|
  {
    if |a| > 0 {
      StrLeAntisymmetric(a[1..], b[1..]);
      assert a == [a[0]] + a[1..] && b == [b[0]] + b[1..];
    }
  }

  lemma {:induction false} StrLeTransitive(a: string, b: string, c: string)
    requires StrLe(a, b) && StrLe(b, c)
    ensures StrLe(a, c)
    decreases |a|
  {
    if |a| > 0 && a[0] == b[0] && b[0] == c[0] {
      StrLeTransitive(a[1..], b[1..], c[1..]);
    }
  }

  lemma {:induction false} StrLeReflexive(a: string)
    ensures StrLe(a, a)
    decreases |a|
  {
    if |a| > 0 {
      StrLeReflexive(a[1..]);
    }
  }

  lemma ParamLeTotal(p: Param, q: Param)
    ensures ParamLe(p, q) || ParamLe(q, p)
  {
    StrLeTotal(p.0, q.0);
    StrLeTotal(p.1, q.1);
  }

  lemma ParamLeAntisymmetric(p: Param, q: Param)
    requires ParamLe(p, q) && ParamLe(q, p)
    ensures p == q
  {
    StrLeAntisymmetric(p.0, q.0);
    StrLeAntisymmetric(p.1, q.1);
  }

  lemma ParamLeTransitive(p: Param, q: Param, r: Param)
    requires ParamLe(p, q) && ParamLe(q, r)
    ensures ParamLe(p, r)
  {
    StrLeTransitive(p.0, q.0, r.0);
    if p.0 == r.0 {
      StrLeAntisymmetric(p.0, q.0);
      StrLeTransitive(p.1, q.1, r.1);
    }
  }

  /** A sorted list stays sorted with an element in front that precedes all of it. */
  lemma ConsSorted(x: Param, ps: seq<Param>)
    requires Sorted(ps)
    requires forall j :: 0 <= j < |ps| ==> ParamLe(x, ps[j])
    ensures Sorted([x] + ps)
  {
    var r := [x] + ps;
    forall i, j | 0 <= i < j < |r|
      ensures ParamLe(r[i], r[j])
    {
      assert r[j] == ps[j - 1];
      if i > 0 {
        assert r[i] == ps[i - 1];
      }
    }
  }

  lemma InsertFront(p: Param, ps: seq<Param>)
    requires Sorted(ps) && ps != [] && ParamLe(p, ps[0])
    ensures Sorted([p] + ps)
  {
    forall j | 0 <= j < |ps|
      ensures ParamLe(p, ps[j])
    {
      if j > 0 {
        ParamLeTransitive(p, ps[0], ps[j]);
      }
    }
    ConsSorted(p, ps);
  }

  lemma InsertBehind(p: Param, ps: seq<Param>, tail: seq<Param>)
    requires Sorted(ps) && ps != [] && ParamLe(ps[0], p)
    requires Sorted(tail) && multiset(tail) == multiset(ps[1..]) + multiset{p}
    ensures Sorted([ps[0]] + tail)
    ensures multiset([ps[0]] + tail) == multiset(ps) + multiset{p}
  {
    assert ps == [ps[0]] + ps[1..];
    forall j | 0 <= j < |tail|
      ensures ParamLe(ps[0], tail[j])
    {
      var x := tail[j];
      assert x in multiset(tail);
      if x != p {
        assert x in multiset(ps[1..]);
        var i :| 0 <= i < |ps[1..]| && ps[1..][i] == x;
        assert ps[i + 1] == x;
      }
    }
    ConsSorted(ps[0], tail);
  }

  /** Inserts `p` into a sorted list before the first element it precedes. */
  function Insert(p: Param, ps: seq<Param>): (r: seq<Param>)
    requires Sorted(ps)
    ensures multiset(r) == multiset(ps) + multiset{p}
    ensures Sorted(r)
    decreases |ps|
  {
    if ps == [] then [p]
    else if ParamLe(p, ps[0]) then
      InsertFront(p, ps);
      [p] + ps
    else
      ParamLeTotal(p, ps[0]);
      var tail := Insert(p, ps[1..]);
      InsertBehind(p, ps, tail);
      [ps[0]] + tail
  }

  /**
    `params.sort()`. Rust's sort is a merge sort; `SortedUnique` shows that every
    sorting algorithm gives the same result, so insertion sort stands for it.
   */
  function Sort(ps: seq<Param>): (r: seq<Param>)
    ensures Sorted(r) && multiset(r) == multiset(ps)
    decreases |ps|
  {
    if ps == [] then []
    else
      assert ps == [ps[0]] + ps[1..];
      Insert(ps[0], Sort(ps[1..]))
  }

  /** The head of a sorted list precedes every element of the list. */
  lemma HeadIsLeast(a: seq<Param>, x: Param)
    requires Sorted(a) && x in a
    ensures ParamLe(a[0], x)
  {
    var i :| 0 <= i < |a| && a[i] == x;
    if i == 0 {
      StrLeReflexive(x.0);
      StrLeReflexive(x.1);
    }
  }

  /** Two sorted lists holding the same pairs start with the same pair. */
  lemma SameHead(a: seq<Param>, b: seq<Param>)
    requires Sorted(a) && Sorted(b) && multiset(a) == multiset(b) && a != [] && b != []
    ensures a[0] == b[0]
  {
    assert a[0] in multiset(b) && b[0] in multiset(a);
    HeadIsLeast(b, a[0]);
    HeadIsLeast(a, b[0]);
    ParamLeAntisymmetric(a[0], b[0]);
  }

  /** Removing the same first element from two lists with the same elements. */
  lemma SameTail<T>(a: seq<T>, b: seq<T>)
    requires a != [] && b != [] && a[0] == b[0] && multiset(a) == multiset(b)
    ensures multiset(a[1..]) == multiset(b[1..])
  {
    assert a == [a[0]] + a[1..] && b == [b[0]] + b[1..];
    assert multiset(a) == multiset{a[0]} + multiset(a[1..]);
    assert multiset(b) == multiset{b[0]} + multiset(b[1..]);
    forall x
      ensures multiset(a[1..])[x] == multiset(b[1..])[x]
    {
      assert multiset(a)[x] == multiset{a[0]}[x] + multiset(a[1..])[x];
      assert multiset(b)[x] == multiset{b[0]}[x] + multiset(b[1..])[x];
    }
  }

  lemma SortedTail(a: seq<Param>)
    requires Sorted(a) && a != []
    ensures Sorted(a[1..])
  {
    forall i, j | 0 <= i < j < |a[1..]|
      ensures ParamLe(a[1..][i], a[1..][j])
    {
      assert a[1..][i] == a[i + 1] && a[1..][j] == a[j + 1];
    }
  }

  /** Two sorted lists holding the same pairs are equal. */
  lemma {:induction false} SortedUnique(a: seq<Param>, b: seq<Param>)
    requires Sorted(a) && Sorted(b) && multiset(a) == multiset(b)
    ensures a == b
    decreases |a|
  {
    assert |a| == |multiset(a)| == |multiset(b)| == |b|;
    if |a| > 0 {
      SameHead(a, b);
      SameTail(a, b);
      SortedTail(a);
      SortedTail(b);
      SortedUnique(a[1..], b[1..]);
      assert a == [a[0]] + a[1..] && b == [b[0]] + b[1..];
    }
  }

  function FormatParam(p: Param): string {
    p.0 + "=" + p.1
  }

  /** `.map(|(k, v)| format!("{}={}", k, v)).collect::<Vec<String>>().join("&")` */
  function JoinParams(ps: seq<Param>): string
    decreases |ps|
  {
    if |ps| == 0 then ""
    else if |ps| == 1 then FormatParam(ps[0])
    else FormatParam(ps[0]) + "&" + JoinParams(ps[1..])
  }

  /** The parameter list in the order the source writes it, timestamp as text. */
  function Params(folder: string, displayName: string, publicId: string, timestamp: string): seq<Param> {
    [("folder", folder), ("display_name", displayName), ("public_id", publicId), ("timestamp", timestamp)]
  }

  /** The string to hash, for a timestamp already rendered as text. */
  function CanonicalText(folder: string, displayName: string, publicId: string, timestamp: string,
                         secret: string): string
  {
    JoinParams(Sort(Params(folder, displayName, publicId, timestamp))) + secret
  }

  /** The string `generate_signature` hashes: the timestamp is rendered by `i64::to_string`. */
  function StringToHash(folder: string, displayName: string, publicId: string, timestamp: i64,
                        secret: string): string
  {
    CanonicalText(folder, displayName, publicId, I64ToString(timestamp), secret)
  }

  /** Lowercase hex of the SHA-1 digest of the text's UTF-8 bytes. */
  function SignText(sha1: seq<byte> -> Digest, text: string): (r: string)
    ensures |r| == 40 && forall i :: 0 <= i < |r| ==> Hex.IsLowerHex(r[i])
  {
    Hex.Encode(sha1(Utf8.Encode(text)))
  }

  /** `generate_signature`: always 40 lowercase hex characters, whatever its arguments. */
  function GenerateSignature(sha1: seq<byte> -> Digest, folder: string, displayName: string,
                             publicId: string, timestamp: i64, secret: string): (r: string)
    ensures |r| == 40 && forall i :: 0 <= i < |r| ==> Hex.IsLowerHex(r[i])
  {
    SignText(sha1, StringToHash(folder, displayName, publicId, timestamp, secret))
  }

  /** The four pairs in key order. */
  function SortedParams(folder: string, displayName: string, publicId: string, timestamp: string): seq<Param> {
    [("display_name", displayName), ("folder", folder), ("public_id", publicId), ("timestamp", timestamp)]
  }

  lemma SortedParamsSorted(folder: string, displayName: string, publicId: string, timestamp: string)
    ensures Sorted(SortedParams(folder, displayName, publicId, timestamp))
  {
    var e := SortedParams(folder, displayName, publicId, timestamp);
    assert ParamLe(e[0], e[1]) && ParamLe(e[0], e[2]) && ParamLe(e[0], e[3]);
    assert ParamLe(e[1], e[2]) && ParamLe(e[1], e[3]) && ParamLe(e[2], e[3]);
  }

  /** `Sort` returns the one sorted arrangement of its input. */
  lemma SortIsUnique(ps: seq<Param>, e: seq<Param>)
    requires Sorted(e) && multiset(e) == multiset(ps)
    ensures Sort(ps) == e
  {
    SortedUnique(Sort(ps), e);
  }

  /** Sorting the four pairs puts their distinct keys in lexicographic order. */
  lemma SortParams(folder: string, displayName: string, publicId: string, timestamp: string)
    ensures Sort(Params(folder, displayName, publicId, timestamp))
         == SortedParams(folder, displayName, publicId, timestamp)
  {
    SortedParamsSorted(folder, displayName, publicId, timestamp);
    PermutedParams(folder, displayName, publicId, timestamp);
    SortIsUnique(Params(folder, displayName, publicId, timestamp), SortedParams(folder, displayName, publicId, timestamp));
  }

  /** The key-ordered list holds the same four pairs. */
  lemma PermutedParams(folder: string, displayName: string, publicId: string, timestamp: string)
    ensures multiset(SortedParams(folder, displayName, publicId, timestamp))
         == multiset(Params(folder, displayName, publicId, timestamp))
  {
    var f, d := ("folder", folder), ("display_name", displayName);
    var rest := [("public_id", publicId), ("timestamp", timestamp)];
    calc {
      multiset(SortedParams(folder, displayName, publicId, timestamp));
      { assert SortedParams(folder, displayName, publicId, timestamp) == [d, f] + rest; }
      multiset([d, f] + rest);
      { SwapFirstTwo(f, d, rest); }
      multiset([f, d] + rest);
      { assert Params(folder, displayName, publicId, timestamp) == [f, d] + rest; }
      multiset(Params(folder, displayName, publicId, timestamp));
    }
  }

  lemma SwapFirstTwo(a: Param, b: Param, rest: seq<Param>)
    ensures multiset([b, a] + rest) == multiset([a, b] + rest)
  {
    calc {
      multiset([b, a] + rest);
      multiset([b, a]) + multiset(rest);
      { assert multiset([b, a]) == multiset{a, b}; }
      multiset([a, b]) + multiset(rest);
      multiset([a, b] + rest);
    }
  }

  lemma JoinFour(p0: Param, p1: Param, p2: Param, p3: Param)
    ensures JoinParams([p0, p1, p2, p3])
         == FormatParam(p0) + "&" + FormatParam(p1) + "&" + FormatParam(p2) + "&" + FormatParam(p3)
  {
    var ps := [p0, p1, p2, p3];
    assert ps[1..] == [p1, p2, p3] && ps[1..][1..] == [p2, p3] && ps[1..][1..][1..] == [p3];
    assert JoinParams([p2, p3]) == FormatParam(p2) + "&" + FormatParam(p3);
    assert JoinParams([p1, p2, p3]) == FormatParam(p1) + "&" + JoinParams([p2, p3]);
  }

  /** The four formatted pairs joined, with each key and `=` written as one literal. */
  lemma SpellOut(displayName: string, folder: string, publicId: string, timestamp: string, secret: string)
    ensures FormatParam(("display_name", displayName)) + "&" + FormatParam(("folder", folder)) + "&"
            + FormatParam(("public_id", publicId)) + "&" + FormatParam(("timestamp", timestamp)) + secret
         == "display_name=" + displayName + "&folder=" + folder + "&public_id=" + publicId
            + "&timestamp=" + timestamp + secret
  {
  }

  /**
    Whatever the values are, the hashed text is exactly
    `display_name=…&folder=…&public_id=…&timestamp=…` followed by the secret.
   */
  lemma CanonicalTextForm(folder: string, displayName: string, publicId: string, timestamp: string,
                          secret: string)
    ensures CanonicalText(folder, displayName, publicId, timestamp, secret)
         == "display_name=" + displayName + "&folder=" + folder + "&public_id=" + publicId
            + "&timestamp=" + timestamp + secret
  {
    SortParams(folder, displayName, publicId, timestamp);
    JoinFour(("display_name", displayName), ("folder", folder), ("public_id", publicId), ("timestamp", timestamp));
    SpellOut(displayName, folder, publicId, timestamp, secret);
  }

  lemma CancelMiddle(p: string, t: string, t': string, q: string)
    requires p + t + q == p + t' + q
    ensures t == t'
  {
    assert |t| == |t'|;
    assert t == (p + t + q)[|p|..|p| + |t|];
    assert t' == (p + t' + q)[|p|..|p| + |t'|];
  }

  /** With the other values fixed, the hashed text determines the timestamp text. */
  lemma CanonicalTextDeterminesTimestamp(folder: string, displayName: string, publicId: string,
                                         t1: string, t2: string, secret: string)
    ensures (CanonicalText(folder, displayName, publicId, t1, secret)
             == CanonicalText(folder, displayName, publicId, t2, secret)) <==> t1 == t2
  {
    CanonicalTextForm(folder, displayName, publicId, t1, secret);
    CanonicalTextForm(folder, displayName, publicId, t2, secret);
    var p := "display_name=" + displayName + "&folder=" + folder + "&public_id=" + publicId + "&timestamp=";
    if CanonicalText(folder, displayName, publicId, t1, secret)
       == CanonicalText(folder, displayName, publicId, t2, secret) {
      CancelMiddle(p, t1, t2, secret);
    }
  }

  /** The nine pieces of the hashed text, grouped around the second, fourth or sixth piece. */
  lemma Regroup(s1: string, s2: string, s3: string, s4: string, s5: string, s6: string, s7: string,
                s8: string, s9: string)
    ensures s1 + s2 + s3 + s4 + s5 + s6 + s7 + s8 + s9 == s1 + s2 + (s3 + s4 + s5 + s6 + s7 + s8 + s9)
    ensures s1 + s2 + s3 + s4 + s5 + s6 + s7 + s8 + s9 == (s1 + s2 + s3) + s4 + (s5 + s6 + s7 + s8 + s9)
    ensures s1 + s2 + s3 + s4 + s5 + s6 + s7 + s8 + s9 == (s1 + s2 + s3 + s4 + s5) + s6 + (s7 + s8 + s9)
  {
  }

  /** With the other values fixed, the hashed text determines the folder. */
  lemma CanonicalTextDeterminesFolder(folder1: string, folder2: string, displayName: string, publicId: string,
                                      timestamp: string, secret: string)
    ensures (CanonicalText(folder1, displayName, publicId, timestamp, secret)
             == CanonicalText(folder2, displayName, publicId, timestamp, secret)) <==> folder1 == folder2
  {
    CanonicalTextForm(folder1, displayName, publicId, timestamp, secret);
    CanonicalTextForm(folder2, displayName, publicId, timestamp, secret);
    Regroup("display_name=", displayName, "&folder=", folder1, "&public_id=", publicId, "&timestamp=", timestamp, secret);
    Regroup("display_name=", displayName, "&folder=", folder2, "&public_id=", publicId, "&timestamp=", timestamp, secret);
    if CanonicalText(folder1, displayName, publicId, timestamp, secret)
       == CanonicalText(folder2, displayName, publicId, timestamp, secret) {
      CancelMiddle("display_name=" + displayName + "&folder=", folder1, folder2,
                   "&public_id=" + publicId + "&timestamp=" + timestamp + secret);
    }
  }

  /** With the other values fixed, the hashed text determines the display name. */
  lemma CanonicalTextDeterminesDisplayName(folder: string, displayName1: string, displayName2: string,
                                           publicId: string, timestamp: string, secret: string)
    ensures (CanonicalText(folder, displayName1, publicId, timestamp, secret)
             == CanonicalText(folder, displayName2, publicId, timestamp, secret)) <==> displayName1 == displayName2
  {
    CanonicalTextForm(folder, displayName1, publicId, timestamp, secret);
    CanonicalTextForm(folder, displayName2, publicId, timestamp, secret);
    Regroup("display_name=", displayName1, "&folder=", folder, "&public_id=", publicId, "&timestamp=", timestamp, secret);
    Regroup("display_name=", displayName2, "&folder=", folder, "&public_id=", publicId, "&timestamp=", timestamp, secret);
    if CanonicalText(folder, displayName1, publicId, timestamp, secret)
       == CanonicalText(folder, displayName2, publicId, timestamp, secret) {
      CancelMiddle("display_name=", displayName1, displayName2,
                   "&folder=" + folder + "&public_id=" + publicId + "&timestamp=" + timestamp + secret);
    }
  }

  /** With the other values fixed, the hashed text determines the public id. */
  lemma CanonicalTextDeterminesPublicId(folder: string, displayName: string, publicId1: string,
                                        publicId2: string, timestamp: string, secret: string)
    ensures (CanonicalText(folder, displayName, publicId1, timestamp, secret)
             == CanonicalText(folder, displayName, publicId2, timestamp, secret)) <==> publicId1 == publicId2
  {
    CanonicalTextForm(folder, displayName, publicId1, timestamp, secret);
    CanonicalTextForm(folder, displayName, publicId2, timestamp, secret);
    Regroup("display_name=", displayName, "&folder=", folder, "&public_id=", publicId1, "&timestamp=", timestamp, secret);
    Regroup("display_name=", displayName, "&folder=", folder, "&public_id=", publicId2, "&timestamp=", timestamp, secret);
    if CanonicalText(folder, displayName, publicId1, timestamp, secret)
       == CanonicalText(folder, displayName, publicId2, timestamp, secret) {
      CancelMiddle("display_name=" + displayName + "&folder=" + folder + "&public_id=", publicId1, publicId2,
                   "&timestamp=" + timestamp + secret);
    }
  }

  /** With the other values fixed, the hashed text determines the secret. */
  lemma CanonicalTextDeterminesSecret(folder: string, displayName: string, publicId: string,
                                      timestamp: string, secret1: string, secret2: string)
    ensures (CanonicalText(folder, displayName, publicId, timestamp, secret1)
             == CanonicalText(folder, displayName, publicId, timestamp, secret2)) <==> secret1 == secret2
  {
    var p := JoinParams(Sort(Params(folder, displayName, publicId, timestamp)));
    if CanonicalText(folder, displayName, publicId, timestamp, secret1)
       == CanonicalText(folder, displayName, publicId, timestamp, secret2) {
      assert p + secret1 + "" == p + secret2 + "";
      CancelMiddle(p, secret1, secret2, "");
    }
  }

  /**
    The hashed text does not depend on the order in which the four pairs are
    listed before sorting: any arrangement of them gives the same string.
   */
  lemma CanonicalOrderIndependent(ps: seq<Param>, folder: string, displayName: string,
                                  publicId: string, timestamp: string, secret: string)
    requires multiset(ps) == multiset(Params(folder, displayName, publicId, timestamp))
    ensures JoinParams(Sort(ps)) + secret == CanonicalText(folder, displayName, publicId, timestamp, secret)
  {
    SortedUnique(Sort(ps), Sort(Params(folder, displayName, publicId, timestamp)));
  }

  /** The string signed for an `i64` timestamp, written out. */
  lemma StringToHashForm(folder: string, displayName: string, publicId: string, timestamp: i64,
                         secret: string)
    ensures StringToHash(folder, displayName, publicId, timestamp, secret)
         == "display_name=" + displayName + "&folder=" + folder + "&public_id=" + publicId
            + "&timestamp=" + I64ToString(timestamp) + secret
  {
    CanonicalTextForm(folder, displayName, publicId, I64ToString(timestamp), secret);
  }

  /**
    The signature is 40 lowercase hex characters, and reading them back in pairs
    gives exactly the SHA-1 digest of the UTF-8 bytes of the canonical string.
   */
  lemma SignatureIsHexDigest(sha1: seq<byte> -> Digest, folder: string, displayName: string,
                             publicId: string, timestamp: i64, secret: string)
    ensures var sig := GenerateSignature(sha1, folder, displayName, publicId, timestamp, secret);
      var digest: seq<byte> := sha1(Utf8.Encode(StringToHash(folder, displayName, publicId, timestamp, secret)));
      && |sig| == 40
      && (forall i :: 0 <= i < |sig| ==> Hex.IsLowerHex(sig[i]))
      && Hex.Decode(sig) == Some(digest)
  {
    Hex.DecodeEncode(sha1(Utf8.Encode(StringToHash(folder, displayName, publicId, timestamp, secret))));
  }

  /**
    With SHA-1 fixed, two calls give the same signature exactly when the digests
    of their canonical strings are equal; in particular equal arguments give
    equal signatures.
   */
  lemma SignatureDeterminedByDigest(sha1: seq<byte> -> Digest,
                                    folder: string, displayName: string, publicId: string, timestamp: i64, secret: string,
                                    folder': string, displayName': string, publicId': string, timestamp': i64, secret': string)
    ensures (GenerateSignature(sha1, folder, displayName, publicId, timestamp, secret)
             == GenerateSignature(sha1, folder', displayName', publicId', timestamp', secret'))
        <==> (sha1(Utf8.Encode(StringToHash(folder, displayName, publicId, timestamp, secret)))
             == sha1(Utf8.Encode(StringToHash(folder', displayName', publicId', timestamp', secret'))))
  {
    Hex.EncodeInjective(sha1(Utf8.Encode(StringToHash(folder, displayName, publicId, timestamp, secret))),
                        sha1(Utf8.Encode(StringToHash(folder', displayName', publicId', timestamp', secret'))));
  }

  /** The decimal text of the example timestamp. */
  lemma ExampleTimestampText()
    ensures NatToString(1700000000) == "1700000000"
  {
    assert NatToString(1) == "1";
    assert NatToString(17) == "17";
    assert NatToString(170) == "170";
    assert NatToString(1700) == "1700";
    assert NatToString(17000) == "17000";
    assert NatToString(170000) == "170000";
    assert NatToString(1700000) == "1700000";
    assert NatToString(17000000) == "17000000";
    assert NatToString(170000000) == "170000000";
  }

  /**
    The worked example: signing folder `media`, name `photo` and timestamp
    1700000000 with secret `s3cr3t` hashes
    `display_name=photo&folder=media&public_id=photo&timestamp=1700000000s3cr3t`.
   */
  lemma ExampleStringToHash()
    ensures StringToHash("media", "photo", "photo", 1700000000, "s3cr3t")
         == "display_name=" + "photo" + "&folder=" + "media" + "&public_id=" + "photo"
            + "&timestamp=" + "1700000000" + "s3cr3t"
  {
    StringToHashForm("media", "photo", "photo", 1700000000, "s3cr3t");
    ExampleTimestampText();
  }
}
