/**
 * The query string of a request URL (`encodeQuery`, flickr.go): one
 * `key=QueryEscape(value)` pair per map entry, pairs separated by `&`, the
 * entries visited in Go's map iteration order, which is unspecified.
 *
 * `url.QueryEscape` is a parameter `escape`; keys are not escaped, as in the
 * source. The reading side (`Split`, `ParsePair`, `ParseQuery`) is the
 * partner that shows no entry is lost or repeated.
 */
module Query {
  import opened StringOrder

  /** One `key=QueryEscape(value)` pair. */
  function Pair(k: string, v: string, escape: string -> string): string
  {
    k + "=" + escape(v)
  }

  /** The pairs of the entries of `m` under the keys `ks`, in that order. */
  function Pairs(m: map<string, string>, ks: seq<string>, escape: string -> string): (r: seq<string>)
    requires forall k :: k in ks ==> k in m
    ensures |r| == |ks|
  {
    seq(|ks|, i requires 0 <= i < |ks| => Pair(ks[i], m[ks[i]], escape))
  }

  /** The parts separated by `&`, with no separator before the first or after the last. */
  function Join(parts: seq<string>): string
  {
    if |parts| == 0 then ""
    else if |parts| == 1 then parts[0]
    else Join(parts[..|parts| - 1]) + "&" + parts[|parts| - 1]
  }

  /** The query string produced when the map is visited in the order `ks`. */
  function QueryString(m: map<string, string>, ks: seq<string>, escape: string -> string): string
    requires forall k :: k in ks ==> k in m
  {
    Join(Pairs(m, ks, escape))
  }

  /** Visiting one more key appends its pair, after a `&` unless it is the first. */
  lemma QueryStringSnoc(m: map<string, string>, ks: seq<string>, k: string, escape: string -> string)
    requires forall j :: j in ks ==> j in m
    requires k in m
    ensures forall j :: j in ks + [k] ==> j in m
    ensures QueryString(m, ks + [k], escape) ==
              (if ks == [] then "" else QueryString(m, ks, escape) + "&") + Pair(k, m[k], escape)
  {
    var ps := Pairs(m, ks + [k], escape);
    assert ps[..|ks|] == Pairs(m, ks, escape);
    assert ps[|ks|] == Pair(k, m[k], escape);
  }

  /**
   * `encodeQuery`: visits the entries in some order (`order`, each key once)
   * and appends the pairs to a buffer, writing `&` before every pair but the
   * first one, as the counter `i` decides.
   */
  method EncodeQuery(args: map<string, string>, escape: string -> string) returns (r: string, ghost order: seq<string>)
    ensures Enumerates(order, args.Keys)
    ensures forall k :: k in order ==> k in args
    ensures r == QueryString(args, order, escape)
    ensures |args| == 0 ==> r == ""
  {
    var i := 0;
    var s := "";
    var remaining := args.Keys;
    order := [];
    while remaining != {}
      invariant remaining <= args.Keys
      invariant multiset(order) + multiset(remaining) == multiset(args.Keys)
      invariant forall k :: k in order ==> k in args
      invariant i == |order|
      invariant s == QueryString(args, order, escape)
      decreases remaining
    {
      var k :| k in remaining;
      EnumerationStep(order, remaining, args.Keys, k);
      QueryStringSnoc(args, order, k, escape);
      if i != 0 {
        s := s + "&";
      }
      i := i + 1;
      s := s + (k + "=" + escape(args[k]));
      order := order + [k];
      remaining := remaining - {k};
    }
    r := s;
    if |args| == 0 {
      assert multiset(order) == multiset{};
    }
  }

  /** The parts of `s` between occurrences of `sep` (Go's `strings.Split`). */
  function Split(s: string, sep: char): (r: seq<string>)
    ensures |r| >= 1
  {
    if s == [] then
      [""]
    else
      var rest := Split(s[1..], sep);
      if s[0] == sep then [""] + rest else [[s[0]] + rest[0]] + rest[1..]
  }

  lemma {:induction false} SplitNoSeparator(s: string, sep: char)
    requires sep !in s
    ensures Split(s, sep) == [s]
  {
    if s != [] {
      SplitNoSeparator(s[1..], sep);
      assert s == [s[0]] + s[1..];
    }
  }

  lemma {:induction false} SplitAround(a: string, b: string, sep: char)
    ensures Split(a + [sep] + b, sep) == Split(a, sep) + Split(b, sep)
  {
    if a == [] {
      assert a + [sep] + b == [sep] + b;
      assert ([sep] + b)[1..] == b;
    } else {
      var s := a + [sep] + b;
      assert s[0] == a[0] && s[1..] == a[1..] + [sep] + b;
      SplitAround(a[1..], b, sep);
    }
  }

  /** Splitting a joined sequence at `&` gives the parts back. */
  lemma {:induction false} SplitJoin(parts: seq<string>)
    requires |parts| >= 1
    requires forall p :: p in parts ==> '&' !in p
    ensures Split(Join(parts), '&') == parts
  {
    var n := |parts|;
    if n == 1 {
      SplitNoSeparator(parts[0], '&');
    } else {
      var init := parts[..n - 1];
      assert forall p :: p in init ==> p in parts;
      SplitJoin(init);
      SplitAround(Join(init), parts[n - 1], '&');
      SplitNoSeparator(parts[n - 1], '&');
      assert Join(parts) == Join(init) + ['&'] + parts[n - 1];
      assert parts == init + [parts[n - 1]];
    }
  }

  /** The number of occurrences of `c` in `s`. */
  function Count(c: char, s: string): nat
  {
    if s == [] then 0 else (if s[0] == c then 1 else 0) + Count(c, s[1..])
  }

  lemma {:induction false} CountAppend(c: char, a: string, b: string)
    ensures Count(c, a + b) == Count(c, a) + Count(c, b)
  {
    if a == [] {
      assert a + b == b;
    } else {
      assert (a + b)[0] == a[0] && (a + b)[1..] == a[1..] + b;
      CountAppend(c, a[1..], b);
    }
  }

  lemma {:induction false} CountAbsent(c: char, s: string)
    requires c !in s
    ensures Count(c, s) == 0
  {
    if s != [] {
      CountAbsent(c, s[1..]);
    }
  }

  /** `n` parts free of `&` are joined with exactly `n - 1` separators. */
  lemma {:induction false} JoinSeparators(parts: seq<string>)
    requires |parts| >= 1
    requires forall p :: p in parts ==> '&' !in p
    ensures Count('&', Join(parts)) == |parts| - 1
  {
    var n := |parts|;
    CountAbsent('&', parts[n - 1]);
    if n > 1 {
      var init := parts[..n - 1];
      assert forall p :: p in init ==> p in parts;
      JoinSeparators(init);
      CountAppend('&', Join(init) + "&", parts[n - 1]);
      CountAppend('&', Join(init), "&");
    }
  }

  /** A joined sequence starts with its first part and ends with its last one. */
  lemma {:induction false} JoinEnds(parts: seq<string>)
    requires |parts| >= 1
    ensures |Join(parts)| >= |parts[0]| && |Join(parts)| >= |parts[|parts| - 1]|
    ensures Join(parts)[..|parts[0]|] == parts[0]
    ensures Join(parts)[|Join(parts)| - |parts[|parts| - 1]|..] == parts[|parts| - 1]
  {
    var n := |parts|;
    if n > 1 {
      var init := parts[..n - 1];
      JoinEnds(init);
      assert init[0] == parts[0];
      assert Join(parts) == Join(init) + "&" + parts[n - 1];
    }
  }

  /**
   * When no key and no escaped value contains `&`, the query string of a
   * non-empty map has exactly one separator fewer than entries, and neither
   * begins nor ends with one.
   */
  lemma QueryShape(m: map<string, string>, ks: seq<string>, escape: string -> string)
    requires Enumerates(ks, m.Keys) && |m| > 0
    requires forall k :: k in m ==> '&' !in k && '&' !in escape(m[k])
    ensures forall k :: k in ks ==> k in m
    ensures var q := QueryString(m, ks, escape);
      Count('&', q) == |m| - 1 && q != "" && q[0] != '&' && q[|q| - 1] != '&'
  {
    assert forall k :: k in ks ==> k in multiset(m.Keys);
    assert |ks| == |multiset(ks)| == |m.Keys|;
    var ps := Pairs(m, ks, escape);
    forall p | p in ps ensures '&' !in p {
      var i :| 0 <= i < |ps| && ps[i] == p;
      assert p == ks[i] + "=" + escape(m[ks[i]]);
    }
    JoinSeparators(ps);
    JoinEnds(ps);
    var first, last := ps[0], ps[|ps| - 1];
    assert first[0] in first;
    assert last[|last| - 1] in last;
  }

  /** A pair read back: the key up to the first `=`, the rest as the value. */
  function ParsePair(p: string): (string, string)
  {
    if p == [] then ("", "")
    else if p[0] == '=' then ("", p[1..])
    else
      var kv := ParsePair(p[1..]);
      ([p[0]] + kv.0, kv.1)
  }

  lemma {:induction false} ParsePairOf(k: string, e: string)
    requires '=' !in k
    ensures ParsePair(k + "=" + e) == (k, e)
  {
    if k != [] {
      assert (k + "=" + e)[1..] == k[1..] + "=" + e;
      ParsePairOf(k[1..], e);
      assert k == [k[0]] + k[1..];
    }
  }

  /** The entries named by a sequence of pairs; a later pair for a key wins. */
  function Collect(parts: seq<string>): map<string, string>
  {
    if parts == [] then map[]
    else
      var kv := ParsePair(parts[|parts| - 1]);
      Collect(parts[..|parts| - 1])[kv.0 := kv.1]
  }

  /** Reads a query string back into the entries it carries (escaped values left escaped). */
  function ParseQuery(q: string): map<string, string>
  {
    if q == "" then map[] else Collect(Split(q, '&'))
  }

  lemma {:induction false} CollectPairs(m: map<string, string>, ks: seq<string>, escape: string -> string)
    requires forall k :: k in ks ==> k in m && '=' !in k
    ensures Collect(Pairs(m, ks, escape)) == map k | k in ks :: escape(m[k])
  {
    if ks != [] {
      var n := |ks|;
      var init := ks[..n - 1];
      assert forall k :: k in init ==> k in ks;
      CollectPairs(m, init, escape);
      var ps := Pairs(m, ks, escape);
      assert ps[..n - 1] == Pairs(m, init, escape);
      var last := ks[n - 1];
      ParsePairOf(last, escape(m[last]));
      var step := (map k | k in init :: escape(m[k]))[last := escape(m[last])];
      assert Collect(ps) == step;
      assert ks == init + [last];
      assert (map k | k in ks :: escape(m[k])) == step;
    }
  }

  /**
   * Round trip: when keys contain neither `&` nor `=` and escaped values
   * contain no `&`, reading the query string back yields every key of the map
   * exactly once, with its escaped value, whatever order the map was visited in.
   */
  lemma QueryRoundTrip(m: map<string, string>, ks: seq<string>, escape: string -> string)
    requires Enumerates(ks, m.Keys)
    requires forall k :: k in m ==> '&' !in k && '=' !in k && '&' !in escape(m[k])
    ensures forall k :: k in ks ==> k in m
    ensures ParseQuery(QueryString(m, ks, escape)) == map k | k in m :: escape(m[k])
  {
    assert forall k :: k in ks <==> k in multiset(m.Keys);
    if |m| == 0 {
      assert |ks| == |multiset(ks)| == 0;
    } else {
      QueryShape(m, ks, escape);
      var ps := Pairs(m, ks, escape);
      forall p | p in ps ensures '&' !in p {
        var i :| 0 <= i < |ps| && ps[i] == p;
        assert p == ks[i] + "=" + escape(m[ks[i]]);
      }
      SplitJoin(ps);
      CollectPairs(m, ks, escape);
    }
  }
}
