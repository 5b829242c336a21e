/**
 * What `Request.sign` (flickr.go) computes, stated on map values.
 *
 * The string that is hashed is the shared secret followed by `key + value`
 * for every parameter in ascending key order, skipping empty values, over the
 * caller's parameters without any stale `api_sig` and with `api_key` and
 * `method` put in. The source sizes its key slice as `len(args) + 2` before
 * inserting those two keys, so every one of them the caller had already
 * supplied leaves one blank slot in the slice; blanks sort first and each
 * contributes the value stored under the key "" (usually nothing).
 * `SigningString` states exactly that; `NoBlankClash` says when the blanks are
 * harmless.
 */
module Signing {
  import opened StringOrder
  import opened Digests

  const ApiSigKey: string := "api_sig"
  const ApiKeyKey: string := "api_key"
  const MethodKey: string := "method"

  /** The three reserved parameter names are distinct and none is empty. */
  lemma ReservedKeysDistinct()
    ensures ApiSigKey != ApiKeyKey && ApiSigKey != MethodKey && ApiKeyKey != MethodKey
    ensures ApiSigKey != "" && ApiKeyKey != "" && MethodKey != ""
  {
    assert ApiSigKey[4] == 's' && ApiKeyKey[4] == 'k' && MethodKey[0] == 'm' && ApiSigKey[0] == 'a';
  }

  /** Go's `m[k]`: the stored value, or the zero value "" when `k` is absent. */
  function Lookup(m: map<string, string>, k: string): string
  {
    if k in m then m[k] else ""
  }

  /** What one key contributes to the signed string: `k + m[k]`, or nothing when the value is empty. */
  function Piece(m: map<string, string>, k: string): string
  {
    if Lookup(m, k) != "" then k + m[k] else ""
  }

  /** The contributions of the keys `ks`, in that order. */
  function Signable(m: map<string, string>, ks: seq<string>): string
  {
    if ks == [] then "" else Piece(m, ks[0]) + Signable(m, ks[1..])
  }

  /** `n` copies of `s`. */
  function Repeat(s: string, n: nat): string
  {
    if n == 0 then "" else s + Repeat(s, n - 1)
  }

  /** The parameter set that is signed: no stale signature, the request's key and method put in. */
  function SignedParams(args: map<string, string>, apiKey: string, methodName: string): map<string, string>
  {
    (args - {ApiSigKey})[ApiKeyKey := apiKey][MethodKey := methodName]
  }

  /** Blank slots left in the key slice: one per `api_key` or `method` the caller already supplied. */
  function BlankSlots(args: map<string, string>): nat
  {
    (if ApiKeyKey in args then 1 else 0) + (if MethodKey in args then 1 else 0)
  }

  /** The canonical serialization: `key + value` in ascending key order, empty values skipped. */
  ghost function Canonical(m: map<string, string>): string
  {
    Signable(m, SortedKeys(m.Keys))
  }

  /** The string `sign` hashes. */
  ghost function SigningString(secret: string, args: map<string, string>, apiKey: string, methodName: string): string
  {
    var m := SignedParams(args, apiKey, methodName);
    secret + Repeat(Lookup(m, ""), BlankSlots(args)) + Canonical(m)
  }

  /** The value `sign` stores under `api_sig`: `%x` of the MD5 digest of the signing string. */
  ghost function Signature(secret: string, args: map<string, string>, apiKey: string, methodName: string,
                           md5: string -> Digest): (sig: string)
    ensures |sig| == 32
    ensures forall i :: 0 <= i < |sig| ==> IsLowerHexDigit(sig[i])
  {
    var digest: Digest := md5(SigningString(secret, args, apiKey, methodName));
    Hex(digest)
  }

  /**
   * The parameter map after `sign`: the temporary and stale keys gone, the
   * signature in, every other entry as it was.
   */
  ghost function Signed(args: map<string, string>, secret: string, apiKey: string, methodName: string,
                        md5: string -> Digest): (r: map<string, string>)
    ensures ApiSigKey in r && ApiKeyKey !in r && MethodKey !in r
    ensures |r[ApiSigKey]| == 32
    ensures forall i :: 0 <= i < 32 ==> IsLowerHexDigit(r[ApiSigKey][i])
    ensures r - {ApiSigKey} == args - {ApiSigKey, ApiKeyKey, MethodKey}
  {
    ReservedKeysDistinct();
    var sig := Signature(secret, args, apiKey, methodName, md5);
    (args - {ApiSigKey, ApiKeyKey, MethodKey})[ApiSigKey := sig]
  }

  /** `Signed` as `sign` reaches it: the two temporary keys deleted from the signed set, the signature stored. */
  lemma SignedSteps(args: map<string, string>, secret: string, apiKey: string, methodName: string,
                    md5: string -> Digest)
    ensures Signed(args, secret, apiKey, methodName, md5)
         == (SignedParams(args, apiKey, methodName) - {ApiKeyKey} - {MethodKey})
              [ApiSigKey := Hex(md5(SigningString(secret, args, apiKey, methodName)))]
  {
    ReservedKeysDistinct();
    assert SignedParams(args, apiKey, methodName) - {ApiKeyKey} - {MethodKey} == args - {ApiSigKey, ApiKeyKey, MethodKey};
  }

  /** The parameter map after `sign` and then `url`: what goes on the wire. */
  ghost function Sent(args: map<string, string>, secret: string, apiKey: string, methodName: string,
                      md5: string -> Digest): map<string, string>
  {
    Signed(args, secret, apiKey, methodName, md5)[ApiKeyKey := apiKey][MethodKey := methodName]
  }

  /**
   * The key slice of `sign` has room for the signed parameter set plus one
   * blank slot per reserved key the caller had already supplied.
   */
  lemma SignedParamsSize(args: map<string, string>, apiKey: string, methodName: string)
    ensures |SignedParams(args, apiKey, methodName)| + BlankSlots(args) == |args - {ApiSigKey}| + 2
  {
    ReservedKeysDistinct();
    var a := args - {ApiSigKey};
    assert ApiKeyKey in a <==> ApiKeyKey in args;
    assert MethodKey in a[ApiKeyKey := apiKey] <==> MethodKey in args;
  }

  /**
   * The sorted key slice of `sign`, blanks first, serializes to the signing
   * string once the secret is put in front.
   */
  lemma SigningStringOfSlice(secret: string, args: map<string, string>, apiKey: string, methodName: string, ks: seq<string>)
    requires ks == Blanks(BlankSlots(args)) + SortedKeys(SignedParams(args, apiKey, methodName).Keys)
    ensures secret + Signable(SignedParams(args, apiKey, methodName), ks) == SigningString(secret, args, apiKey, methodName)
  {
    var m, n := SignedParams(args, apiKey, methodName), BlankSlots(args);
    SignableAppend(m, Blanks(n), SortedKeys(m.Keys));
    SignableBlanks(m, n);
  }

  /** The blank slots contribute nothing: no caller-supplied `api_key`/`method`, or no non-empty value under "". */
  predicate NoBlankClash(args: map<string, string>)
  {
    BlankSlots(args) == 0 || Lookup(args, "") == ""
  }

  lemma {:induction false} SignableAppend(m: map<string, string>, a: seq<string>, b: seq<string>)
    ensures Signable(m, a + b) == Signable(m, a) + Signable(m, b)
  {
    if a == [] {
      assert a + b == b;
    } else {
      assert (a + b)[0] == a[0] && (a + b)[1..] == a[1..] + b;
      SignableAppend(m, a[1..], b);
    }
  }

  lemma SignableSnoc(m: map<string, string>, ks: seq<string>, k: string)
    ensures Signable(m, ks + [k]) == Signable(m, ks) + Piece(m, k)
  {
    SignableAppend(m, ks, [k]);
    SignableCons(m, k, []);
  }

  lemma SignableCons(m: map<string, string>, k: string, ks: seq<string>)
    ensures Signable(m, [k] + ks) == Piece(m, k) + Signable(m, ks)
  {
    assert ([k] + ks)[0] == k && ([k] + ks)[1..] == ks;
  }

  lemma {:induction false} SignableBlanks(m: map<string, string>, n: nat)
    ensures Signable(m, Blanks(n)) == Repeat(Lookup(m, ""), n)
  {
    if n > 0 {
      assert Blanks(n)[1..] == Blanks(n - 1);
      SignableBlanks(m, n - 1);
    }
  }

  lemma {:induction false} RepeatEmpty(n: nat)
    ensures Repeat("", n) == ""
  {
    if n > 0 {
      RepeatEmpty(n - 1);
    }
  }

  /** Keys whose contributions agree give the same string. */
  lemma {:induction false} SignableAgree(m1: map<string, string>, m2: map<string, string>, ks: seq<string>)
    requires forall k :: k in ks ==> Piece(m1, k) == Piece(m2, k)
    ensures Signable(m1, ks) == Signable(m2, ks)
  {
    if ks != [] {
      assert forall k :: k in ks[1..] ==> k in ks;
      SignableAgree(m1, m2, ks[1..]);
    }
  }

  /** Inserting a key with an empty value into the sorted keys changes nothing. */
  lemma {:induction false} SignableInsertEmpty(m: map<string, string>, k: string, ks: seq<string>)
    requires Piece(m, k) == ""
    ensures Signable(m, Insert(k, ks)) == Signable(m, ks)
  {
    if ks == [] {
      SignableCons(m, k, []);
    } else if Le(k, ks[0]) {
      SignableCons(m, k, ks);
    } else {
      SignableInsertEmpty(m, k, ks[1..]);
      SignableCons(m, ks[0], Insert(k, ks[1..]));
      SignableCons(m, ks[0], ks[1..]);
      assert ks == [ks[0]] + ks[1..];
    }
  }

  /**
   * The signed string is the secret followed by the canonical serialization
   * of the signed parameter set whenever the blank slots contribute nothing.
   */
  lemma SigningStringIsCanonical(secret: string, args: map<string, string>, apiKey: string, methodName: string)
    requires NoBlankClash(args)
    ensures SigningString(secret, args, apiKey, methodName) == secret + Canonical(SignedParams(args, apiKey, methodName))
  {
    var m := SignedParams(args, apiKey, methodName);
    var blanks := Repeat(Lookup(m, ""), BlankSlots(args));
    assert blanks == "" by {
      ReservedKeysDistinct();
      assert Lookup(m, "") == Lookup(args, "");
      RepeatEmpty(BlankSlots(args));
    }
    assert secret + blanks == secret;
  }

  /**
   * The canonical serialization is the concatenation over any ascending
   * enumeration of the keys: the order is fixed by the keys alone.
   */
  lemma CanonicalInAscendingOrder(m: map<string, string>, ks: seq<string>)
    requires Sorted(ks) && Enumerates(ks, m.Keys)
    ensures Canonical(m) == Signable(m, ks)
  {
    SortedKeysUnique(ks, m.Keys);
  }

  /** Adding a key whose contribution is empty leaves the canonical serialization as it was. */
  lemma CanonicalAddEmpty(m0: map<string, string>, k: string, v: string)
    requires k !in m0 && Piece(m0[k := v], k) == ""
    ensures Canonical(m0[k := v]) == Canonical(m0)
  {
    var m1 := m0[k := v];
    var ks := SortedKeys(m0.Keys);
    SortedKeysSorts(m0.Keys);
    assert m1.Keys == m0.Keys + {k};
    SortedKeysAdd(m0.Keys, k);
    SignableInsertEmpty(m1, k, ks);
    forall j | j in ks ensures Piece(m1, j) == Piece(m0, j) {
      assert j in multiset(ks);
    }
    SignableAgree(m1, m0, ks);
  }

  /**
   * Adding a parameter whose value is "" (other than `api_key` or `method`,
   * which are overwritten anyway) signs the same string as leaving it out,
   * and so yields the same `api_sig`.
   */
  lemma EmptyValueIgnored(secret: string, args: map<string, string>, k: string, apiKey: string, methodName: string,
                          md5: string -> Digest)
    requires k != ApiKeyKey && k != MethodKey
    ensures SigningString(secret, args[k := ""], apiKey, methodName) == SigningString(secret, args - {k}, apiKey, methodName)
    ensures Signature(secret, args[k := ""], apiKey, methodName, md5) == Signature(secret, args - {k}, apiKey, methodName, md5)
  {
    var with, without := args[k := ""], args - {k};
    if k == ApiSigKey {
      assert with - {ApiSigKey} == without - {ApiSigKey};
    } else {
      var m1, m0 := SignedParams(with, apiKey, methodName), SignedParams(without, apiKey, methodName);
      assert m1 == m0[k := ""] && k !in m0;
      assert Lookup(m1, "") == Lookup(m0, "");
      assert BlankSlots(with) == BlankSlots(without);
      CanonicalAddEmpty(m0, k, "");
    }
  }

  /** A common prefix cancels. */
  lemma PrefixCancel(p: string, a: string, b: string)
    requires p + a == p + b
    ensures a == b
  {
    assert a == (p + a)[|p|..];
    assert b == (p + b)[|p|..];
  }

  /** A common prefix and suffix cancel. */
  lemma MiddleCancel(pre: string, a: string, b: string, post: string)
    requires pre + a + post == pre + b + post
    ensures a == b
  {
    var x, y := pre + a + post, pre + b + post;
    assert |a| == |b|;
    assert a == x[|pre|..|pre| + |a|];
    assert b == y[|pre|..|pre| + |b|];
  }

  /** The contributions before slot `i`, of slot `i`, and after it. */
  lemma SignableSplit(m: map<string, string>, ks: seq<string>, i: nat)
    requires i < |ks|
    ensures Signable(m, ks) == Signable(m, ks[..i]) + Piece(m, ks[i]) + Signable(m, ks[i + 1..])
  {
    assert ks == ks[..i] + ([ks[i]] + ks[i + 1..]);
    SignableAppend(m, ks[..i], [ks[i]] + ks[i + 1..]);
    SignableCons(m, ks[i], ks[i + 1..]);
  }

  /** Two different values under one key contribute differently. */
  lemma PieceDiffers(m: map<string, string>, k: string, v1: string, v2: string)
    requires v1 != v2
    ensures Piece(m[k := v1], k) != Piece(m[k := v2], k)
  {
    if v1 != "" && v2 != "" && k + v1 == k + v2 {
      PrefixCancel(k, v1, v2);
    }
  }

  /** A key of an enumeration occurs in it once: not before its slot and not after it. */
  lemma EnumerationOnce(ks: seq<string>, keys: set<string>, i: nat)
    requires Enumerates(ks, keys) && i < |ks|
    ensures ks[i] !in ks[..i] && ks[i] !in ks[i + 1..]
  {
    assert ks == ks[..i] + [ks[i]] + ks[i + 1..];
    assert multiset(ks) == multiset(ks[..i]) + multiset{ks[i]} + multiset(ks[i + 1..]);
    assert ks[i] in multiset(keys);
  }

  /**
   * The canonical serializations of a map with two values under one key
   * differ only in that key's contribution: they share what comes before it
   * and what comes after it.
   */
  lemma CanonicalAround(m: map<string, string>, k: string, v1: string, v2: string) returns (pre: string, post: string)
    ensures Canonical(m[k := v1]) == pre + Piece(m[k := v1], k) + post
    ensures Canonical(m[k := v2]) == pre + Piece(m[k := v2], k) + post
  {
    var m1, m2 := m[k := v1], m[k := v2];
    assert m1.Keys == m2.Keys;
    var ks := SortedKeys(m1.Keys);
    SortedKeysSorts(m1.Keys);
    assert k in multiset(ks);
    var i :| 0 <= i < |ks| && ks[i] == k;
    EnumerationOnce(ks, m1.Keys, i);
    SignableAgree(m1, m2, ks[..i]);
    SignableAgree(m1, m2, ks[i + 1..]);
    SignableSplit(m1, ks, i);
    SignableSplit(m2, ks, i);
    pre, post := Signable(m1, ks[..i]), Signable(m1, ks[i + 1..]);
  }

  /** Changing the value under one key changes the canonical serialization. */
  lemma CanonicalValueMatters(m: map<string, string>, k: string, v1: string, v2: string)
    requires v1 != v2
    ensures Canonical(m[k := v1]) != Canonical(m[k := v2])
  {
    var pre, post := CanonicalAround(m, k, v1, v2);
    PieceDiffers(m, k, v1, v2);
    if Canonical(m[k := v1]) == Canonical(m[k := v2]) {
      MiddleCancel(pre, Piece(m[k := v1], k), Piece(m[k := v2], k), post);
    }
  }

  /** `n` copies of a shorter string are no longer than `n` copies of a longer one. */
  lemma {:induction false} RepeatShorter(s1: string, s2: string, n: nat)
    requires |s1| <= |s2|
    ensures |Repeat(s1, n)| <= |Repeat(s2, n)|
  {
    if n > 0 {
      RepeatShorter(s1, s2, n - 1);
    }
  }

  /** The signed string after setting an ordinary parameter: the secret, the blank slots' term, the canonical serialization. */
  lemma SigningStringUpdate(secret: string, args: map<string, string>, k: string, v: string,
                            apiKey: string, methodName: string)
    requires k != ApiSigKey && k != ApiKeyKey && k != MethodKey
    ensures var m := SignedParams(args, apiKey, methodName)[k := v];
            SigningString(secret, args[k := v], apiKey, methodName)
              == secret + (Repeat(Lookup(m, ""), BlankSlots(args)) + Canonical(m))
  {
    SignedParamsUpdate(args, k, v, apiKey, methodName);
  }

  /**
   * The value under the key "" is signed once per blank slot and once more
   * in its own place, so two different values still give different strings.
   */
  lemma BlankKeyValueMatters(secret: string, args: map<string, string>, v1: string, v2: string,
                             apiKey: string, methodName: string)
    requires v1 != v2
    ensures SigningString(secret, args["" := v1], apiKey, methodName)
         != SigningString(secret, args["" := v2], apiKey, methodName)
  {
    var m := SignedParams(args, apiKey, methodName);
    var n := BlankSlots(args);
    SigningStringUpdate(secret, args, "", v1, apiKey, methodName);
    SigningStringUpdate(secret, args, "", v2, apiKey, methodName);
    var pre, post := CanonicalAround(m, "", v1, v2);
    assert Piece(m["" := v1], "") == v1 && Piece(m["" := v2], "") == v2;
    assert Lookup(m["" := v1], "") == v1 && Lookup(m["" := v2], "") == v2;
    RepeatedValueDiffers(v1, v2, n, pre, post);
    var x1 := Repeat(v1, n) + Canonical(m["" := v1]);
    var x2 := Repeat(v2, n) + Canonical(m["" := v2]);
    if secret + x1 == secret + x2 {
      PrefixCancel(secret, x1, x2);
    }
  }

  /** A value repeated and then repeated once more between a fixed prefix and suffix determines the string. */
  lemma RepeatedValueDiffers(v1: string, v2: string, n: nat, pre: string, post: string)
    requires v1 != v2
    ensures Repeat(v1, n) + (pre + v1 + post) != Repeat(v2, n) + (pre + v2 + post)
  {
    var x1 := Repeat(v1, n) + (pre + v1 + post);
    var x2 := Repeat(v2, n) + (pre + v2 + post);
    if |v1| < |v2| {
      RepeatShorter(v1, v2, n);
      assert |x1| < |x2|;
    } else if |v2| < |v1| {
      RepeatShorter(v2, v1, n);
      assert |x2| < |x1|;
    } else if n > 0 {
      assert x1[..|v1|] == v1;
      assert x2[..|v2|] == v2;
    } else {
      assert x1 == pre + v1 + post && x2 == pre + v2 + post;
      if x1 == x2 {
        MiddleCancel(pre, v1, v2, post);
      }
    }
  }

  /** Setting an ordinary parameter sets it in the signed parameter set and leaves the blank slots alone. */
  lemma SignedParamsUpdate(args: map<string, string>, k: string, v: string, apiKey: string, methodName: string)
    requires k != ApiSigKey && k != ApiKeyKey && k != MethodKey
    ensures SignedParams(args[k := v], apiKey, methodName) == SignedParams(args, apiKey, methodName)[k := v]
    ensures BlankSlots(args[k := v]) == BlankSlots(args)
  {
  }

  /**
   * The signed string depends on the value of every ordinary parameter: two
   * different values (one of them possibly empty) give different strings.
   */
  lemma ParamValueMatters(secret: string, args: map<string, string>, k: string, v1: string, v2: string,
                          apiKey: string, methodName: string)
    requires k != ApiSigKey && k != ApiKeyKey && k != MethodKey
    requires v1 != v2
    ensures SigningString(secret, args[k := v1], apiKey, methodName)
         != SigningString(secret, args[k := v2], apiKey, methodName)
  {
    if k == "" {
      BlankKeyValueMatters(secret, args, v1, v2, apiKey, methodName);
    } else {
      var m := SignedParams(args, apiKey, methodName);
      SigningStringUpdate(secret, args, k, v1, apiKey, methodName);
      SigningStringUpdate(secret, args, k, v2, apiKey, methodName);
      assert Lookup(m[k := v1], "") == Lookup(m, "") == Lookup(m[k := v2], "");
      CanonicalValueMatters(m, k, v1, v2);
      var r, c1, c2 := Repeat(Lookup(m, ""), BlankSlots(args)), Canonical(m[k := v1]), Canonical(m[k := v2]);
      if secret + (r + c1) == secret + (r + c2) {
        PrefixCancel(secret, r + c1, r + c2);
        PrefixCancel(r, c1, c2);
      }
    }
  }

  /** The signed string depends on the API key. */
  lemma ApiKeyMatters(secret: string, args: map<string, string>, apiKey1: string, apiKey2: string, methodName: string)
    requires apiKey1 != apiKey2
    ensures SigningString(secret, args, apiKey1, methodName) != SigningString(secret, args, apiKey2, methodName)
  {
    ReservedKeysDistinct();
    var m := (args - {ApiSigKey})[MethodKey := methodName];
    assert SignedParams(args, apiKey1, methodName) == m[ApiKeyKey := apiKey1];
    assert SignedParams(args, apiKey2, methodName) == m[ApiKeyKey := apiKey2];
    assert Lookup(m[ApiKeyKey := apiKey1], "") == Lookup(m, "") == Lookup(m[ApiKeyKey := apiKey2], "");
    CanonicalValueMatters(m, ApiKeyKey, apiKey1, apiKey2);
    var p := secret + Repeat(Lookup(m, ""), BlankSlots(args));
    if SigningString(secret, args, apiKey1, methodName) == SigningString(secret, args, apiKey2, methodName) {
      PrefixCancel(p, Canonical(m[ApiKeyKey := apiKey1]), Canonical(m[ApiKeyKey := apiKey2]));
    }
  }

  /** The signed string depends on the method name. */
  lemma MethodMatters(secret: string, args: map<string, string>, apiKey: string, methodName1: string, methodName2: string)
    requires methodName1 != methodName2
    ensures SigningString(secret, args, apiKey, methodName1) != SigningString(secret, args, apiKey, methodName2)
  {
    ReservedKeysDistinct();
    var m := (args - {ApiSigKey})[ApiKeyKey := apiKey];
    assert Lookup(m[MethodKey := methodName1], "") == Lookup(m, "") == Lookup(m[MethodKey := methodName2], "");
    CanonicalValueMatters(m, MethodKey, methodName1, methodName2);
    var p := secret + Repeat(Lookup(m, ""), BlankSlots(args));
    if SigningString(secret, args, apiKey, methodName1) == SigningString(secret, args, apiKey, methodName2) {
      PrefixCancel(p, Canonical(m[MethodKey := methodName1]), Canonical(m[MethodKey := methodName2]));
    }
  }

  /** Signing the result of signing gives the same map: the stale signature is dropped first. */
  lemma SignIdempotent(args: map<string, string>, secret: string, apiKey: string, methodName: string, md5: string -> Digest)
    requires NoBlankClash(args)
    ensures Signed(Signed(args, secret, apiKey, methodName, md5), secret, apiKey, methodName, md5)
         == Signed(args, secret, apiKey, methodName, md5)
  {
    var once := Signed(args, secret, apiKey, methodName, md5);
    assert SignedParams(once, apiKey, methodName) == SignedParams(args, apiKey, methodName);
    assert BlankSlots(once) == 0;
    SigningStringIsCanonical(secret, args, apiKey, methodName);
    SigningStringIsCanonical(secret, once, apiKey, methodName);
    assert once - {ApiSigKey, ApiKeyKey, MethodKey} == args - {ApiSigKey, ApiKeyKey, MethodKey};
  }

  /**
   * Without `NoBlankClash` the source signs a different string the second
   * time: a caller map with `"" -> "x"` and its own `method` entry gets the
   * value "x" signed twice on the first call and once on the second.
   */
  lemma BlankClashChangesSignature(secret: string, apiKey: string, methodName: string, md5: string -> Digest)
    ensures var args := map["" := "x", MethodKey := methodName];
      !NoBlankClash(args) &&
      SigningString(secret, Signed(args, secret, apiKey, methodName, md5), apiKey, methodName)
        != SigningString(secret, args, apiKey, methodName)
  {
    var args := map["" := "x", MethodKey := methodName];
    var once := Signed(args, secret, apiKey, methodName, md5);
    assert BlankSlots(args) == 1;
    assert SignedParams(once, apiKey, methodName) == SignedParams(args, apiKey, methodName);
    assert Lookup(SignedParams(args, apiKey, methodName), "") == "x";
  }

  /**
   * The map sent after `sign` and `url`, less its signature, is exactly the
   * parameter set that was signed, and the signature sent is the one computed.
   */
  lemma SentIsSigned(args: map<string, string>, secret: string, apiKey: string, methodName: string, md5: string -> Digest)
    ensures Sent(args, secret, apiKey, methodName, md5) - {ApiSigKey} == SignedParams(args, apiKey, methodName)
    ensures Sent(args, secret, apiKey, methodName, md5)[ApiSigKey] == Signature(secret, args, apiKey, methodName, md5)
  {
    var sent := Sent(args, secret, apiKey, methodName, md5);
    var params := SignedParams(args, apiKey, methodName);
    assert sent.Keys - {ApiSigKey} == params.Keys;
  }

  /**
   * End to end: when the blank slots are harmless, the signature sent is the
   * one a server recomputes from the parameters it receives.
   */
  lemma ServerRecomputesSignature(args: map<string, string>, secret: string, apiKey: string, methodName: string,
                                  md5: string -> Digest)
    requires NoBlankClash(args)
    ensures var sent := Sent(args, secret, apiKey, methodName, md5);
      sent[ApiSigKey] == Hex(md5(secret + Canonical(sent - {ApiSigKey})))
  {
    SentIsSigned(args, secret, apiKey, methodName, md5);
    SigningStringIsCanonical(secret, args, apiKey, methodName);
  }

  /** The canonical serialization of a map with three keys, given in ascending order. */
  lemma CanonicalOfThree(m: map<string, string>, a: string, b: string, c: string)
    requires m.Keys == {a, b, c} && a != b && b != c && a != c
    requires Le(a, b) && Le(b, c)
    ensures Canonical(m) == Piece(m, a) + Piece(m, b) + Piece(m, c)
  {
    var ks := [a, b, c];
    LeTransitive(a, b, c);
    assert Sorted(ks);
    ThreeKeys(a, b, c);
    CanonicalInAscendingOrder(m, ks);
    SignableThree(m, a, b, c);
  }

  /** Three distinct keys listed once each enumerate their set. */
  lemma ThreeKeys(a: string, b: string, c: string)
    requires a != b && b != c && a != c
    ensures multiset([a, b, c]) == multiset({a, b, c})
  {
    assert multiset([a, b, c]) == multiset{a} + multiset{b} + multiset{c};
    assert {a, b, c} == {a} + {b} + {c};
  }

  /** The contributions of three keys, in that order. */
  lemma SignableThree(m: map<string, string>, a: string, b: string, c: string)
    ensures Signable(m, [a, b, c]) == Piece(m, a) + Piece(m, b) + Piece(m, c)
  {
    assert [a, b, c][1..] == [b, c];
    assert [b, c][1..] == [c];
    assert [c][1..] == [];
    assert Signable(m, [c]) == Piece(m, c) + "" == Piece(m, c);
    assert Signable(m, [b, c]) == Piece(m, b) + Piece(m, c);
  }

  /** A key holding a non-empty value contributes the key followed by the value. */
  lemma PieceOf(m: map<string, string>, k: string)
    requires k in m && m[k] != ""
    ensures Piece(m, k) == k + m[k]
  {
  }

  /** The signed parameter set of `{foo: bar}` with key `abc` and method `flickr.test`; no blank slots. */
  lemma ExampleParams()
    ensures SignedParams(map["foo" := "bar"], "abc", "flickr.test")
         == map[ApiKeyKey := "abc", "foo" := "bar", MethodKey := "flickr.test"]
    ensures BlankSlots(map["foo" := "bar"]) == 0
  {
    var args := map["foo" := "bar"];
    assert ApiKeyKey !in args && MethodKey !in args;
  }

  /** The canonical serialization of `{api_key: abc, foo: bar, method: flickr.test}`. */
  lemma ExampleCanonical()
    ensures Canonical(map[ApiKeyKey := "abc", "foo" := "bar", MethodKey := "flickr.test"])
         == ApiKeyKey + "abc" + ("foo" + "bar") + (MethodKey + "flickr.test")
  {
    var m := map[ApiKeyKey := "abc", "foo" := "bar", MethodKey := "flickr.test"];
    CanonicalOfThree(m, ApiKeyKey, "foo", MethodKey);
    PieceOf(m, ApiKeyKey);
    PieceOf(m, "foo");
    PieceOf(m, MethodKey);
  }

  /** A concrete instance: parameters `{foo: bar}`, method `flickr.test`, key `abc`, secret `xyz`. */
  lemma SigningStringExample()
    ensures SigningString("xyz", map["foo" := "bar"], "abc", "flickr.test")
         == "xyz" + (ApiKeyKey + "abc" + ("foo" + "bar") + (MethodKey + "flickr.test"))
  {
    ExampleParams();
    ExampleCanonical();
    RepeatEmpty(0);
  }

  /**
   * Concatenating keys and values without separators is ambiguous: the
   * parameter sets `{a: bc}` and `{ab: c}` are signed with the same string.
   */
  lemma SigningStringAmbiguous(secret: string, apiKey: string, methodName: string)
    ensures SigningString(secret, map["a" := "bc"], apiKey, methodName)
         == SigningString(secret, map["ab" := "c"], apiKey, methodName)
  {
    var m1 := SignedParams(map["a" := "bc"], apiKey, methodName);
    var m2 := SignedParams(map["ab" := "c"], apiKey, methodName);
    AmbiguousParams(apiKey, methodName);
    CanonicalOfThree(m1, "a", ApiKeyKey, MethodKey);
    CanonicalOfThree(m2, "ab", ApiKeyKey, MethodKey);
    PieceOf(m1, "a");
    PieceOf(m2, "ab");
    assert "a" + "bc" == "ab" + "c";
  }

  /** The signed parameter sets of `{a: bc}` and `{ab: c}`; neither has blank slots. */
  lemma AmbiguousParams(apiKey: string, methodName: string)
    ensures SignedParams(map["a" := "bc"], apiKey, methodName) == map["a" := "bc", ApiKeyKey := apiKey, MethodKey := methodName]
    ensures SignedParams(map["ab" := "c"], apiKey, methodName) == map["ab" := "c", ApiKeyKey := apiKey, MethodKey := methodName]
    ensures BlankSlots(map["a" := "bc"]) == 0 == BlankSlots(map["ab" := "c"])
  {
    assert ApiKeyKey !in map["a" := "bc"] && MethodKey !in map["a" := "bc"];
    assert ApiKeyKey !in map["ab" := "c"] && MethodKey !in map["ab" := "c"];
  }
}
