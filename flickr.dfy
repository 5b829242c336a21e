/**
 * The request pipeline of flickr.go: a `Request` signs its parameter map in
 * place, renders itself as a URL, and a `Connection` sends it.
 *
 * A Go map is a reference: the `Args` of a request is the very map the caller
 * passed in, and `sign` and `url` change it. `StringMap` is that shared map
 * object; its `entries` are the map's contents at a given moment.
 *
 * MD5, `url.QueryEscape` and the HTTP round trip are parameters (`md5`,
 * `escape`, `roundTrip`): the model says what is handed to them and what is
 * done with their answers, not how they work.
 */
module Flickr {
  import opened StringOrder
  import opened Digests
  import opened Query
  import opened Signing

  /** The REST endpoint every request URL starts with. */
  const Endpoint: string := "https://api.flickr.com/services/rest/?"

  /** The message of the error `execute` returns for an incomplete request. */
  const NeedKeyAndMethod: string := "Need both API key and method"

  const PhotosSearchMethod: string := "flickr.photos.search"
  const PhotosGetSizesMethod: string := "flickr.photos.getSizes"

  /** What the HTTP client reports for a GET: the body it read, or a transport error. */
  datatype Outcome = Delivered(body: seq<byte>) | TransportFailed(message: string)

  /** The `(body, error)` pair of `execute`: a body, or an error with its message. */
  datatype Result = Ok(body: seq<byte>) | Err(message: string)

  /** A body on success, the transport error otherwise. */
  function Deliver(o: Outcome): (r: Result)
    ensures r.Ok? <==> o.Delivered?
    ensures o.Delivered? ==> r.body == o.body
    ensures o.TransportFailed? ==> r.message == o.message
  {
    match o
    case Delivered(body) => Ok(body)
    case TransportFailed(message) => Err(message)
  }

  /** A Go `map[string]string`, shared by reference. */
  class StringMap {
    var entries: map<string, string>

    constructor (entries: map<string, string>)
      ensures this.entries == entries
    {
      this.entries := entries;
    }
  }

  /** `http.Client`: its configuration plays no part here. */
  class HttpClient {
    constructor ()
    {
    }
  }

  /**
   * The first loop of `sign`: writes every key of `m` into the zeroed slice,
   * one slot each in map iteration order; the slots left over keep "".
   */
  method FillKeys(m: map<string, string>, a: array<string>)
    requires |m| <= a.Length
    requires forall j :: 0 <= j < a.Length ==> a[j] == ""
    modifies a
    ensures multiset(a[..|m|]) == multiset(m.Keys)
    ensures forall j :: |m| <= j < a.Length ==> a[j] == ""
  {
    var i := 0;
    var remaining := m.Keys;
    ghost var visited: seq<string> := [];
    while remaining != {}
      invariant remaining <= m.Keys
      invariant i == |visited| && i + |remaining| == |m.Keys|
      invariant a[..i] == visited
      invariant forall j :: i <= j < a.Length ==> a[j] == ""
      invariant multiset(visited) + multiset(remaining) == multiset(m.Keys)
      decreases remaining
    {
      var k :| k in remaining;
      EnumerationStep(visited, remaining, m.Keys, k);
      a[i] := k;
      i := i + 1;
      visited := visited + [k];
      remaining := remaining - {k};
    }
  }

  /**
   * The key slice of `sign` once filled and sorted: the slots left over,
   * blank, come first, then the keys of `m` in ascending order.
   */
  method SortedKeySlice(m: map<string, string>, a: array<string>)
    requires |m| <= a.Length
    requires forall j :: 0 <= j < a.Length ==> a[j] == ""
    modifies a
    ensures a[..] == Blanks(a.Length - |m|) + SortedKeys(m.Keys)
  {
    FillKeys(m, a);
    BlankTail(a[..], |m|);
    assert a[..][..|m|] == a[..|m|];
    SortWithBlanks(a[..], m.Keys, a.Length - |m|);
    SortStrings(a);
  }

  /**
   * The second loop of `sign`: the secret followed by `key + value` for every
   * key of the slice, in slice order, whose value in `m` is not empty.
   */
  method Concatenate(secret: string, m: map<string, string>, keys: array<string>) returns (s: string)
    ensures s == secret + Signable(m, keys[..])
  {
    s := secret;
    for j := 0 to keys.Length
      invariant s == secret + Signable(m, keys[..j])
    {
      var key := keys[j];
      assert keys[..j + 1] == keys[..j] + [key];
      SignableSnoc(m, keys[..j], key);
      if Lookup(m, key) != "" {
        s := s + (key + m[key]);
      }
    }
    assert keys[..keys.Length] == keys[..];
  }

  /** A call: the application key, the API method and the parameter map. */
  class Request {
    var apiKey: string
    var methodName: string
    var args: StringMap

    constructor (apiKey: string, methodName: string, args: StringMap)
      ensures this.apiKey == apiKey && this.methodName == methodName && this.args == args
    {
      this.apiKey := apiKey;
      this.methodName := methodName;
      this.args := args;
    }

    /**
     * `sign`: drops any stale `api_sig`, signs the parameters together with
     * `api_key` and `method`, takes those two out again and stores the
     * signature under `api_sig`.
     */
    method Sign(secret: string, md5: string -> Digest)
      modifies args
      ensures args.entries == Signed(old(args.entries), secret, apiKey, methodName, md5)
    {
      ghost var original := args.entries;
      args.entries := args.entries - {ApiSigKey};
      var sortedKeys := new string[|args.entries| + 2](_ => "");
      assert forall j :: 0 <= j < sortedKeys.Length ==> sortedKeys[j] == "";
      args.entries := args.entries[ApiKeyKey := apiKey];
      args.entries := args.entries[MethodKey := methodName];
      ghost var m := args.entries;
      assert m == SignedParams(original, apiKey, methodName);
      SignedParamsSize(original, apiKey, methodName);

      SortedKeySlice(args.entries, sortedKeys);
      var s := Concatenate(secret, args.entries, sortedKeys);
      SigningStringOfSlice(secret, original, apiKey, methodName, sortedKeys[..]);

      args.entries := args.entries - {ApiKeyKey} - {MethodKey};
      var digest := md5(s);
      args.entries := args.entries[ApiSigKey := Hex(digest)];
      SignedSteps(original, secret, apiKey, methodName, md5);
    }

    /**
     * `url`: puts `api_key` and `method` back into the parameter map and
     * renders it after the endpoint, the entries in map iteration order.
     */
    method Url(escape: string -> string) returns (r: string, ghost order: seq<string>)
      modifies args
      ensures args.entries == old(args.entries)[ApiKeyKey := apiKey][MethodKey := methodName]
      ensures Enumerates(order, args.entries.Keys)
      ensures forall k :: k in order ==> k in args.entries
      ensures r == Endpoint + QueryString(args.entries, order, escape)
    {
      args.entries := args.entries[ApiKeyKey := apiKey];
      args.entries := args.entries[MethodKey := methodName];
      var q;
      q, order := EncodeQuery(args.entries, escape);
      r := Endpoint + q;
    }
  }

  /** A client connection: the application's key and secret, and a lazily created HTTP client. */
  class Connection {
    var apiKey: string
    var apiSecret: string
    var client: HttpClient?

    constructor (apiKey: string, apiSecret: string, client: HttpClient?)
      ensures this.apiKey == apiKey && this.apiSecret == apiSecret && this.client == client
    {
      this.apiKey := apiKey;
      this.apiSecret := apiSecret;
      this.client := client;
    }

    /**
     * `execute`: creates the HTTP client on first use, refuses a request
     * without key or method before touching it, and otherwise sends a GET for
     * the request's URL and hands back the body or the transport error.
     */
    method Execute(request: Request, escape: string -> string, roundTrip: string -> Outcome)
      returns (r: Result, ghost order: seq<string>)
      modifies this`client, request.args
      ensures client != null
      ensures old(client) != null ==> client == old(client)
      ensures old(client) == null ==> fresh(client)
      ensures request.apiKey == "" || request.methodName == "" ==>
                r == Err(NeedKeyAndMethod) && request.args.entries == old(request.args.entries)
      ensures request.apiKey != "" && request.methodName != "" ==>
                && request.args.entries == old(request.args.entries)[ApiKeyKey := request.apiKey][MethodKey := request.methodName]
                && Enumerates(order, request.args.entries.Keys)
                && (forall k :: k in order ==> k in request.args.entries)
                && r == Deliver(roundTrip(Endpoint + QueryString(request.args.entries, order, escape)))
    {
      if client == null {
        client := new HttpClient();
      }
      if request.apiKey == "" || request.methodName == "" {
        return Err(NeedKeyAndMethod), [];
      }
      var url;
      url, order := request.Url(escape);
      var outcome := roundTrip(url);
      r := Deliver(outcome);
    }

    /**
     * The body shared by the API wrappers: a request for `methodName` over
     * the caller's own `query` map, signed and then executed on a copy of the
     * connection (the wrappers take the connection by value).
     */
    method Call(methodName: string, query: StringMap, md5: string -> Digest,
                escape: string -> string, roundTrip: string -> Outcome)
      returns (r: Result, ghost order: seq<string>)
      requires methodName != ""
      modifies query
      ensures apiKey == "" ==>
                r == Err(NeedKeyAndMethod) && query.entries == Signed(old(query.entries), apiSecret, apiKey, methodName, md5)
      ensures apiKey != "" ==>
                && query.entries == Sent(old(query.entries), apiSecret, apiKey, methodName, md5)
                && Enumerates(order, query.entries.Keys)
                && (forall k :: k in order ==> k in query.entries)
                && r == Deliver(roundTrip(Endpoint + QueryString(query.entries, order, escape)))
    {
      var byValue := new Connection(apiKey, apiSecret, client);
      var request := new Request(apiKey, methodName, query);
      request.Sign(apiSecret, md5);
      r, order := byValue.Execute(request, escape, roundTrip);
    }

    /** `PhotosSearch`: calls `flickr.photos.search`; the caller's client field is left as it was. */
    method PhotosSearch(query: StringMap, md5: string -> Digest, escape: string -> string, roundTrip: string -> Outcome)
      returns (r: Result, ghost order: seq<string>)
      modifies query
      ensures apiKey == "" ==>
                r == Err(NeedKeyAndMethod) && query.entries == Signed(old(query.entries), apiSecret, apiKey, PhotosSearchMethod, md5)
      ensures apiKey != "" ==>
                && query.entries == Sent(old(query.entries), apiSecret, apiKey, PhotosSearchMethod, md5)
                && Enumerates(order, query.entries.Keys)
                && (forall k :: k in order ==> k in query.entries)
                && r == Deliver(roundTrip(Endpoint + QueryString(query.entries, order, escape)))
    {
      r, order := Call(PhotosSearchMethod, query, md5, escape, roundTrip);
    }

    /** `PhotosGetSizes`: calls `flickr.photos.getSizes`; the caller's client field is left as it was. */
    method PhotosGetSizes(query: StringMap, md5: string -> Digest, escape: string -> string, roundTrip: string -> Outcome)
      returns (r: Result, ghost order: seq<string>)
      modifies query
      ensures apiKey == "" ==>
                r == Err(NeedKeyAndMethod) && query.entries == Signed(old(query.entries), apiSecret, apiKey, PhotosGetSizesMethod, md5)
      ensures apiKey != "" ==>
                && query.entries == Sent(old(query.entries), apiSecret, apiKey, PhotosGetSizesMethod, md5)
                && Enumerates(order, query.entries.Keys)
                && (forall k :: k in order ==> k in query.entries)
                && r == Deliver(roundTrip(Endpoint + QueryString(query.entries, order, escape)))
    {
      r, order := Call(PhotosGetSizesMethod, query, md5, escape, roundTrip);
    }
  }
}
