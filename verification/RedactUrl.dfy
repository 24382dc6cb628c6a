/**
  `redactUrl` (`apps/api/src/lib/logger.ts`): what the request log keeps of a URL. Parsing and
  serialising a query string are library code and enter as two functions.
 */
module RedactUrl {
  import opened Wrappers

  datatype Param = Param(name: string, value: string)

  const SENSITIVE_QUERY_KEYS: set<string> := {"q", "phone", "code", "token"}
  const REDACTED := "[REDACTED]"

  predicate Has(ps: seq<Param>, name: string) { exists i | 0 <= i < |ps| :: ps[i].name == name }

  /** The position of the first parameter of a name. */
  function FirstIndex(ps: seq<Param>, name: string): (k: nat)
    requires Has(ps, name)
    ensures k < |ps| && ps[k].name == name && !Has(ps[..k], name)
  {
    if ps[0].name == name then 0
    else
      assert Has(ps[1..], name) by {
        var i :| 0 <= i < |ps| && ps[i].name == name;
        assert ps[1..][i - 1] == ps[i];
      }
      var k := FirstIndex(ps[1..], name);
      assert forall i | 0 < i < k + 1 :: ps[i] == ps[1..][..k][i - 1];
      k + 1
  }

  function Without(ps: seq<Param>, name: string): seq<Param> {
    if ps == [] then []
    else Without(ps[..|ps| - 1], name) + if ps[|ps| - 1].name == name then [] else [ps[|ps| - 1]]
  }

  /** `URLSearchParams.set` (URL Standard section 6.2). */
  function SetParam(ps: seq<Param>, name: string, value: string): seq<Param> {
    if Has(ps, name) then
      var k := FirstIndex(ps, name);
      ps[..k] + [Param(name, value)] + Without(ps[k + 1..], name)
    else ps + [Param(name, value)]
  }

  /** The distinct names in order of first occurrence: `new Set(params.keys())`. */
  function DistinctNames(ps: seq<Param>): (names: seq<string>)
    ensures forall name :: name in names <==> Has(ps, name)
    ensures forall i, j | 0 <= i < j < |names| :: names[i] != names[j]
  {
    if ps == [] then []
    else
      var init, last := ps[..|ps| - 1], ps[|ps| - 1];
      assert forall name :: Has(ps, name) <==> Has(init, name) || name == last.name by { HasOfAppend(init, last); }
      var names := DistinctNames(init);
      if last.name in names then names else names + [last.name]
  }

  lemma HasOfAppend(init: seq<Param>, last: Param)
    ensures forall name :: Has(init + [last], name) <==> Has(init, name) || name == last.name
  {
    forall name | Has(init, name) ensures Has(init + [last], name) {
      var i :| 0 <= i < |init| && init[i].name == name;
      assert (init + [last])[i].name == name;
    }
    assert (init + [last])[|init|].name == last.name;
  }

  /**
    What is left of a parameter list: a parameter named in `keys` stays where its name first
    occurs, without its value; every other parameter stays as it is.
   */
  function Masked(ps: seq<Param>, keys: set<string>): seq<Param> {
    if ps == [] then []
    else
      var init, last := ps[..|ps| - 1], ps[|ps| - 1];
      if last.name !in keys then Masked(init, keys) + [last]
      else if Has(init, last.name) then Masked(init, keys)
      else Masked(init, keys) + [Param(last.name, REDACTED)]
  }

  function Redacted(ps: seq<Param>): seq<Param> { Masked(ps, SENSITIVE_QUERY_KEYS) }

  ghost predicate HoldsSecret(ps: seq<Param>) { exists name | name in SENSITIVE_QUERY_KEYS :: Has(ps, name) }

  // ---- The loop ------------------------------------------------------------------------------

  lemma FirstIndexIsFirst(ps: seq<Param>, name: string, k: nat)
    requires k < |ps| && ps[k].name == name && !Has(ps[..k], name)
    ensures Has(ps, name) && FirstIndex(ps, name) == k
  {
    hide FirstIndex;
    var m := FirstIndex(ps, name);
    assert !Has(ps[..m], name);
  }

  lemma SetOfAppend(init: seq<Param>, last: Param, name: string, value: string)
    requires Has(init, name)
    ensures SetParam(init + [last], name, value) ==
            if last.name == name then SetParam(init, name, value) else SetParam(init, name, value) + [last]
  {
    hide FirstIndex, Has;
    var ps, k := init + [last], FirstIndex(init, name);
    assert ps[..k] == init[..k];
    FirstIndexIsFirst(ps, name, k);
    var rest := init[k + 1..];
    assert ps[k + 1..] == rest + [last] && (rest + [last])[..|rest|] == rest;
  }

  lemma SetOfNew(init: seq<Param>, name: string, before: string, value: string)
    requires !Has(init, name)
    ensures SetParam(init + [Param(name, before)], name, value) == init + [Param(name, value)]
  {
    hide FirstIndex;
    var ps := init + [Param(name, before)];
    assert ps[..|init|] == init;
    FirstIndexIsFirst(ps, name, |init|);
    assert ps[|init| + 1..] == [];
  }

  /** What setting a name makes of one more parameter. */
  lemma SetSoFar(ps: seq<Param>, k: nat, name: string, value: string)
    requires k < |ps|
    ensures Has(ps[..k + 1], name) <==> Has(ps[..k], name) || ps[k].name == name
    ensures Has(ps[..k], name) ==>
              SetParam(ps[..k + 1], name, value) ==
              if ps[k].name == name then SetParam(ps[..k], name, value) else SetParam(ps[..k], name, value) + [ps[k]]
    ensures !Has(ps[..k], name) && ps[k].name == name ==>
              SetParam(ps[..k + 1], name, value) == ps[..k] + [Param(name, value)]
  {
    hide Has, SetParam;
    var init, last := ps[..k], ps[k];
    assert ps[..k + 1] == init + [last];
    HasOfAppend(init, last);
    if Has(init, name) {
      SetOfAppend(init, last, name, value);
    } else if last.name == name {
      SetOfNew(init, name, last.value, value);
    }
  }

  lemma SetIsAppend(ps: seq<Param>, name: string, value: string)
    requires !Has(ps, name)
    ensures SetParam(ps, name, value) == ps + [Param(name, value)]
  {
  }

  /** The list of parameters that `redactUrl` changes in place. */
  class SearchParams {
    var list: seq<Param>

    constructor (ps: seq<Param>)
      ensures list == ps
    {
      list := ps;
    }

    /** The first parameter of the name is overwritten, later ones are removed, a new name is appended. */
    method Set(name: string, value: string)
      modifies this
      ensures list == SetParam(old(list), name, value)
    {
      hide SetParam;
      ghost var ps, k := list, 0;
      var found, i := false, 0;
      while i < |list|
        invariant i <= |list| && k <= |ps| && list[i..] == ps[k..]
        invariant found <==> Has(ps[..k], name)
        invariant list[..i] == if found then SetParam(ps[..k], name, value) else ps[..k]
        decreases |list| - i
      {
        SetSoFar(ps, k, name, value);
        assert list[i] == ps[k] && list[i + 1..] == list[i..][1..] == ps[k + 1..];
        if list[i].name != name {
          i := i + 1;
        } else if !found {
          list := list[i := Param(name, value)];
          found, i := true, i + 1;
        } else {
          list := list[..i] + list[i + 1..];
        }
        k := k + 1;
      }
      assert ps[..k] == ps && list[..i] == list;
      if !found {
        SetIsAppend(ps, name, value);
        list := list + [Param(name, value)];
      }
    }
  }

  /** Masking keeps the names. */
  lemma {:induction false} MaskedKeepsNames(ps: seq<Param>, keys: set<string>, name: string)
    ensures Has(Masked(ps, keys), name) <==> Has(ps, name)
  {
    if ps != [] {
      var init, last := ps[..|ps| - 1], ps[|ps| - 1];
      MaskedKeepsNames(init, keys, name);
      HasOfAppend(init, last);
      HasOfAppend(Masked(init, keys), last);
      HasOfAppend(Masked(init, keys), Param(last.name, REDACTED));
      assert ps == init + [last];
    }
  }

  /** Keys that do not occur make no difference. */
  lemma {:induction false} MaskedOnOccurring(ps: seq<Param>, keys: set<string>, others: set<string>)
    requires forall name | Has(ps, name) :: name in keys <==> name in others
    ensures Masked(ps, keys) == Masked(ps, others)
  {
    if ps != [] {
      var init, last := ps[..|ps| - 1], ps[|ps| - 1];
      assert ps == init + [last];
      HasOfAppend(init, last);
      MaskedOnOccurring(init, keys, others);
    }
  }

  /** Setting one more key masks one more key. */
  lemma {:induction false} SetMasksOneMore(ps: seq<Param>, keys: set<string>, name: string)
    requires name !in keys && Has(ps, name)
    ensures SetParam(Masked(ps, keys), name, REDACTED) == Masked(ps, keys + {name})
  {
    assert ps != [];
    hide SetParam, Has, FirstIndex;
    var init, last := ps[..|ps| - 1], ps[|ps| - 1];
    var masked := Masked(init, keys);
    assert ps == init + [last];
    HasOfAppend(init, last);
    MaskedKeepsNames(init, keys, name);
    var more := keys + {name};
    assert Masked(ps, keys) ==
      if last.name !in keys then masked + [last]
      else if Has(init, last.name) then masked else masked + [Param(last.name, REDACTED)];
    assert Masked(ps, more) ==
      if last.name !in more then Masked(init, more) + [last]
      else if Has(init, last.name) then Masked(init, more) else Masked(init, more) + [Param(last.name, REDACTED)];
    hide Masked;
    if Has(init, name) {
      SetMasksOneMore(init, keys, name);
      SetOfAppend(masked, last, name, REDACTED);
      SetOfAppend(masked, Param(last.name, REDACTED), name, REDACTED);
    } else {
      MaskedOnOccurring(init, keys, more);
      SetOfNew(masked, name, last.value, REDACTED);
    }
  }

  // ---- The whole function --------------------------------------------------------------------

  /** The position of the first `?`, or the length of the URL. */
  function QueryMark(url: string): (n: nat)
    ensures n <= |url| && '?' !in url[..n] && (n < |url| ==> url[n] == '?')
  {
    if url == "" || url[0] == '?' then 0 else 1 + QueryMark(url[1..])
  }

  /** What is logged in place of a query string. */
  ghost function LoggedQuery(query: string, parse: string -> seq<Param>, serialize: seq<Param> -> string): string {
    if HoldsSecret(parse(query)) then serialize(Redacted(parse(query))) else query
  }

  /** What is logged in place of a URL. */
  ghost function Logged(url: string, parse: string -> seq<Param>, serialize: seq<Param> -> string): string {
    var n := QueryMark(url);
    if n == |url| then url else url[..n] + "?" + LoggedQuery(url[n + 1..], parse, serialize)
  }

  method RedactUrl(url: Option<string>, parse: string -> seq<Param>, serialize: seq<Param> -> string)
    returns (r: Option<string>)
    ensures r == if url.Some? then Some(Logged(url.value, parse, serialize)) else None
  {
    hide Has, Masked;
    if url == None || url.value == "" { return url; }
    var index := QueryMark(url.value);
    if index == |url.value| { return url; }
    var params := new SearchParams(parse(url.value[index + 1..]));
    var changed := RedactParams(params);
    if changed { return Some(url.value[..index] + "?" + serialize(params.list)); }
    assert url.value == url.value[..index] + [url.value[index]] + url.value[index + 1..];
    return url;
  }

  /** The loop of `redactUrl`. */
  method RedactParams(params: SearchParams) returns (changed: bool)
    modifies params
    ensures params.list == Redacted(old(params.list))
    ensures changed <==> HoldsSecret(old(params.list))
  {
    hide Has, Masked;
    changed := false;
    var keys := DistinctNames(params.list);
    ghost var ps, done: set<string> := params.list, {};
    MaskedByNone(ps);
    for i := 0 to |keys|
      invariant done == set key | key in keys[..i] && key in SENSITIVE_QUERY_KEYS
      invariant params.list == Masked(ps, done)
      invariant changed <==> done != {}
    {
      if keys[i] in SENSITIVE_QUERY_KEYS {
        SetMasksOneMore(ps, done, keys[i]);
        params.Set(keys[i], REDACTED);
        changed := true;
        done := done + {keys[i]};
      }
    }
    assert keys[..|keys|] == keys;
    MaskedOnOccurring(ps, done, SENSITIVE_QUERY_KEYS);
    if changed { ghost var key :| key in done; }
  }

  lemma {:induction false} MaskedByNone(ps: seq<Param>)
    ensures Masked(ps, {}) == ps
  {
    if ps != [] { MaskedByNone(ps[..|ps| - 1]); }
  }

  // ---- What it promises ----------------------------------------------------------------------

  /** The values of a name, in order. */
  function Values(ps: seq<Param>, name: string): seq<string> {
    if ps == [] then []
    else
      var init, last := Values(ps[..|ps| - 1], name), ps[|ps| - 1];
      if last.name == name then init + [last.value] else init
  }

  /** The names whose values never reach the log. */
  predicate Sensitive(name: string) { name == "q" || name == "phone" || name == "code" || name == "token" }

  lemma SensitiveMeans(name: string)
    ensures Sensitive(name) <==> name in SENSITIVE_QUERY_KEYS
  {
  }

  lemma ValuesOfAppend(init: seq<Param>, last: Param, name: string)
    ensures Values(init + [last], name) ==
            if last.name == name then Values(init, name) + [last.value] else Values(init, name)
  {
    assert (init + [last])[..|init|] == init;
  }

  /** A sensitive name is left once, without its value; every other name keeps all its values in order. */
  lemma {:induction false} ValuesOfRedacted(ps: seq<Param>, name: string)
    ensures Values(Redacted(ps), name) ==
            if !Sensitive(name) then Values(ps, name) else if Has(ps, name) then ["[REDACTED]"] else []
  {
    if ps != [] {
      var init, last := ps[..|ps| - 1], ps[|ps| - 1];
      assert ps == init + [last];
      SensitiveMeans(name);
      hide Has, Values, Sensitive, SENSITIVE_QUERY_KEYS;
      HasOfAppend(init, last);
      ValuesOfRedacted(init, name);
      ValuesOfAppend(init, last, name);
      ValuesOfAppend(Redacted(init), last, name);
      ValuesOfAppend(Redacted(init), Param(last.name, REDACTED), name);
    }
  }

  /** The parameter at `i` stays: it is not sensitive, or the first of its name. */
  predicate Stays(ps: seq<Param>, i: nat)
    requires i < |ps|
  {
    ps[i].name in SENSITIVE_QUERY_KEYS ==> !Has(ps[..i], ps[i].name)
  }

  function Mask(p: Param): Param { if p.name in SENSITIVE_QUERY_KEYS then Param(p.name, REDACTED) else p }

  /** The positions of the parameters that stay, in order. */
  function Staying(ps: seq<Param>): (at: seq<nat>)
    ensures forall j | 0 <= j < |at| :: at[j] < |ps|
  {
    if ps == [] then []
    else
      var init := Staying(ps[..|ps| - 1]);
      if Stays(ps, |ps| - 1) then init + [|ps| - 1] else init
  }

  /** The logged list is the staying parameters, at increasing positions, with the sensitive values masked. */
  lemma {:induction false} RedactedIsMaskedSubsequence(ps: seq<Param>)
    ensures
      var at := Staying(ps);
      && (forall i: nat :: i in at <==> i < |ps| && Stays(ps, i))
      && (forall j, k | 0 <= j < k < |at| :: at[j] < at[k])
      && |Redacted(ps)| == |at| && forall j | 0 <= j < |at| :: Redacted(ps)[j] == Mask(ps[at[j]])
  {
    if ps != [] {
      var init := ps[..|ps| - 1];
      RedactedIsMaskedSubsequence(init);
      forall i: nat | i < |init| ensures Stays(ps, i) <==> Stays(init, i) { assert init[..i] == ps[..i]; }
    }
  }

  /** Masking twice is masking once. */
  lemma {:induction false} RedactedIsIdempotent(ps: seq<Param>)
    ensures Redacted(Redacted(ps)) == Redacted(ps)
  {
    if ps != [] {
      var init, last := ps[..|ps| - 1], ps[|ps| - 1];
      RedactedIsIdempotent(init);
      MaskedKeepsNames(init, SENSITIVE_QUERY_KEYS, last.name);
      var masked := Redacted(init);
      assert (masked + [last])[..|masked|] == masked;
      assert (masked + [Param(last.name, REDACTED)])[..|masked|] == masked;
    }
  }

  lemma {:induction false} QueryMarkIsFirst(url: string, n: nat)
    requires n < |url| && url[n] == '?' && '?' !in url[..n]
    ensures QueryMark(url) == n
  {
    if n > 0 {
      assert url[0] in url[..n] && url[1..][..n - 1] == url[..n][1..];
      QueryMarkIsFirst(url[1..], n - 1);
    }
  }

  /** The log keeps everything up to the `?`. */
  lemma LoggedSplits(path: string, query: string, parse: string -> seq<Param>, serialize: seq<Param> -> string)
    requires '?' !in path
    ensures Logged(path + "?" + query, parse, serialize) == path + "?" + LoggedQuery(query, parse, serialize)
  {
    hide LoggedQuery;
    var n, url := |path|, path + "?" + query;
    assert url[..n] == path && url[n + 1..] == query;
    QueryMarkIsFirst(url, n);
  }

  /** A URL without a query, or whose query has no sensitive name, is logged as it is. */
  lemma HarmlessIsLoggedUnchanged(url: string, parse: string -> seq<Param>, serialize: seq<Param> -> string)
    requires forall path, query | '?' !in path && url == path + "?" + query ::
               forall i | 0 <= i < |parse(query)| :: !Sensitive(parse(query)[i].name)
    ensures Logged(url, parse, serialize) == url
  {
    var n := QueryMark(url);
    if n < |url| {
      var path, query := url[..n], url[n + 1..];
      assert url == path + "?" + query;
      hide QueryMark;
      assert !HoldsSecret(parse(query)) by {
        forall name | name in SENSITIVE_QUERY_KEYS ensures !Has(parse(query), name) { SensitiveMeans(name); }
      }
    }
  }

  /** A URL with a sensitive name is logged with its path and the masked list. */
  lemma SecretIsMasked(path: string, query: string, parse: string -> seq<Param>, serialize: seq<Param> -> string)
    requires '?' !in path && exists i :: 0 <= i < |parse(query)| && Sensitive(parse(query)[i].name)
    ensures Logged(path + "?" + query, parse, serialize) == path + "?" + serialize(Redacted(parse(query)))
  {
    var i :| 0 <= i < |parse(query)| && Sensitive(parse(query)[i].name);
    assert Has(parse(query), parse(query)[i].name);
    SensitiveMeans(parse(query)[i].name);
    LoggedSplits(path, query, parse, serialize);
  }

  lemma RedactedHoldsSecret(ps: seq<Param>)
    ensures HoldsSecret(Redacted(ps)) <==> HoldsSecret(ps)
    ensures !HoldsSecret(ps) ==> Redacted(ps) == ps
  {
    hide Has;
    forall name ensures Has(Redacted(ps), name) <==> Has(ps, name) {
      MaskedKeepsNames(ps, SENSITIVE_QUERY_KEYS, name);
    }
    if !HoldsSecret(ps) {
      MaskedOnOccurring(ps, {}, SENSITIVE_QUERY_KEYS);
      MaskedByNone(ps);
    }
  }

  /** What is logged decodes to the redacted list, and logging it again changes nothing. */
  lemma LoggedIsIdempotent(path: string, query: string, parse: string -> seq<Param>, serialize: seq<Param> -> string)
    requires '?' !in path
    requires forall ps :: parse(serialize(ps)) == ps
    ensures
      var logged := LoggedQuery(query, parse, serialize);
      && parse(logged) == Redacted(parse(query))
      && Logged(path + "?" + query, parse, serialize) == path + "?" + logged
      && Logged(path + "?" + logged, parse, serialize) == path + "?" + logged
  {
    hide Logged, Redacted, HoldsSecret, QueryMark;
    var ps := parse(query);
    LoggedSplits(path, query, parse, serialize);
    LoggedSplits(path, LoggedQuery(query, parse, serialize), parse, serialize);
    RedactedHoldsSecret(ps);
    RedactedIsIdempotent(ps);
  }

  /** The same parameters, save for the values of sensitive ones. */
  predicate SameButSecrets(ps: seq<Param>, qs: seq<Param>) {
    |ps| == |qs| &&
    forall i | 0 <= i < |ps| ::
      ps[i].name == qs[i].name && (ps[i].name !in SENSITIVE_QUERY_KEYS ==> ps[i].value == qs[i].value)
  }

  /** The log shows nothing of a sensitive value: URLs that differ in those alone are logged alike. */
  lemma {:induction false} SecretsDoNotShow(ps: seq<Param>, qs: seq<Param>)
    requires SameButSecrets(ps, qs)
    ensures Redacted(ps) == Redacted(qs)
  {
    if ps != [] {
      var k := |ps| - 1;
      SecretsDoNotShow(ps[..k], qs[..k]);
      SameNames(ps[..k], qs[..k], ps[k].name);
    }
  }

  /** Two requests that differ in secrets alone leave the same line in the log. */
  lemma LoggedHidesSecrets(
    path: string, query: string, other: string, parse: string -> seq<Param>, serialize: seq<Param> -> string)
    requires '?' !in path
    requires SameButSecrets(parse(query), parse(other)) && HoldsSecret(parse(query))
    ensures Logged(path + "?" + query, parse, serialize) == Logged(path + "?" + other, parse, serialize)
  {
    LoggedSplits(path, query, parse, serialize);
    LoggedSplits(path, other, parse, serialize);
    hide Logged;
    SecretsDoNotShow(parse(query), parse(other));
    var name :| name in SENSITIVE_QUERY_KEYS && Has(parse(query), name);
    SameNames(parse(query), parse(other), name);
  }

  lemma SameNames(ps: seq<Param>, qs: seq<Param>, name: string)
    requires SameButSecrets(ps, qs)
    ensures Has(ps, name) <==> Has(qs, name)
  {
    if Has(ps, name) { var i :| 0 <= i < |ps| && ps[i].name == name; assert qs[i].name == name; }
    if Has(qs, name) { var i :| 0 <= i < |qs| && qs[i].name == name; assert ps[i].name == name; }
  }
}
