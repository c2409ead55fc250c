/** The query string of the frame's address: `?` followed by `key=value` pairs for
    the non-null fields in a fixed key order, then one `env[]=value` pair per entry
    of an `env` array. Values go through `encodeURIComponent`, which is a parameter
    here (`enc`). */
module Query {
  import opened Wrappers
  import opened Text

  /** The fields of the query object, each already in the string form the encoder
      receives; None stands for `null` or `undefined`. */
  datatype Fields = Fields(
    name: string,
    notebook: Option<string>,
    source: string,
    location: string,
    readOnly: Option<string>,
    nodeVersion: Option<string>,
    title: Option<string>)

  /** The keys in the order the query object declares them. */
  const Keys: seq<string> := ["name", "notebook", "source", "location", "readOnly", "nodeVersion", "title"]

  function Values(f: Fields): (vs: seq<Option<string>>)
    ensures |vs| == |Keys|
  {
    [Some(f.name), f.notebook, Some(f.source), Some(f.location), f.readOnly, f.nodeVersion, f.title]
  }

  /** `key=enc(value)` for every present field, in key order. */
  function Pairs(keys: seq<string>, values: seq<Option<string>>, enc: string -> string): seq<string>
    requires |keys| == |values|
  {
    if keys == [] then []
    else
      (if values[0].Some? then [keys[0] + "=" + enc(values[0].value)] else []) +
      Pairs(keys[1..], values[1..], enc)
  }

  /** `env[]=enc(e)` for every entry, in order. */
  function EnvPairs(env: seq<string>, enc: string -> string): seq<string> {
    seq(|env|, i requires 0 <= i < |env| => "env[]=" + enc(env[i]))
  }

  /** The query string: the pairs joined by `&`, and when `env` is an array, `&` and its
      pairs joined by `&` (so an empty array leaves a trailing `&`). */
  function QueryString(f: Fields, env: Option<seq<string>>, enc: string -> string): (q: string)
    ensures |q| >= 1 && q[0] == '?'
  {
    "?" + Join(Pairs(Keys, Values(f), enc), '&') +
    (if env.Some? then "&" + Join(EnvPairs(env.value, enc), '&') else "")
  }

  /** `encodeURIComponent` never produces `&` (it escapes it as `%26`). */
  ghost predicate NoAmpersand(enc: string -> string) {
    forall s :: '&' !in enc(s)
  }

  /** The value a reader of the query finds for `key`: the rest of the first piece
      that starts with `key=`. */
  function Lookup(pieces: seq<string>, key: string): Option<string> {
    if pieces == [] then None
    else if StartsWith(pieces[0], key + "=") then Some(pieces[0][|key| + 1..])
    else Lookup(pieces[1..], key)
  }

  function Encoded(v: Option<string>, enc: string -> string): Option<string> {
    match v
    case None => None
    case Some(x) => Some(enc(x))
  }

  lemma PairsCount(keys: seq<string>, values: seq<Option<string>>, enc: string -> string)
    requires |keys| == |values| && |keys| >= 1 && values[0].Some?
    ensures |Pairs(keys, values, enc)| >= 1
  {
  }

  lemma {:induction false} PairsNoAmpersand(keys: seq<string>, values: seq<Option<string>>, enc: string -> string)
    requires |keys| == |values| && NoAmpersand(enc)
    requires forall j :: 0 <= j < |keys| ==> '&' !in keys[j]
    ensures forall j :: 0 <= j < |Pairs(keys, values, enc)| ==> '&' !in Pairs(keys, values, enc)[j]
  {
    if keys != [] {
      var tail := Pairs(keys[1..], values[1..], enc);
      PairsNoAmpersand(keys[1..], values[1..], enc);
      if values[0].Some? {
        var p := keys[0] + "=" + enc(values[0].value);
        assert '&' !in enc(values[0].value);
        assert '&' !in p;
        assert Pairs(keys, values, enc) == [p] + tail;
      } else {
        assert Pairs(keys, values, enc) == tail;
      }
    }
  }

  /** No env pair contains `&`. */
  lemma EnvPairsNoAmpersand(es: seq<string>, enc: string -> string)
    requires NoAmpersand(enc)
    ensures forall j :: 0 <= j < |EnvPairs(es, enc)| ==> '&' !in EnvPairs(es, enc)[j]
  {
    forall j | 0 <= j < |es| ensures '&' !in EnvPairs(es, enc)[j] {
      assert '&' !in enc(es[j]);
    }
  }

  /** The query, without its `?`, splits at `&` into the field pairs followed by the env
      pairs; an empty env array contributes one empty piece. */
  lemma QueryPieces(f: Fields, env: Option<seq<string>>, enc: string -> string)
    requires NoAmpersand(enc)
    ensures var pairs := Pairs(Keys, Values(f), enc);
            Split(QueryString(f, env, enc)[1..], '&') ==
              pairs + (match env
                       case None => []
                       case Some(es) => if es == [] then [""] else EnvPairs(es, enc))
  {
    var pairs := Pairs(Keys, Values(f), enc);
    PairsCount(Keys, Values(f), enc);
    PairsNoAmpersand(Keys, Values(f), enc);
    SplitJoin(pairs, '&');
    var head := Join(pairs, '&');
    var q := QueryString(f, env, enc);
    if env.Some? {
      var ep := EnvPairs(env.value, enc);
      var tail := Join(ep, '&');
      assert q[1..] == head + ['&'] + tail;
      SplitConcat(head, '&', tail);
      if ep != [] {
        EnvPairsNoAmpersand(env.value, enc);
        SplitJoin(ep, '&');
      }
    } else {
      assert q[1..] == head;
    }
  }

  /** A `key=` prefix cannot match a piece for a different key, since keys hold no `=`. */
  lemma KeyPrefixUnique(a: string, b: string, v: string)
    requires '=' !in a && '=' !in b
    requires StartsWith(b + "=" + v, a + "=")
    ensures a == b
  {
    var s := b + "=" + v;
    assert s[..|a| + 1] == a + "=";
    assert a == s[..|a|] && s[|a|] == '=';
    assert b == s[..|b|] && s[|b|] == '=';
    assert forall i :: 0 <= i < |b| ==> s[i] == b[i] && s[i] != '=';
    assert forall i :: 0 <= i < |a| ==> s[i] == a[i] && s[i] != '=';
  }

  lemma {:induction false} LookupPairs(keys: seq<string>, values: seq<Option<string>>, enc: string -> string,
                                       rest: seq<string>, key: string)
    requires |keys| == |values| && '=' !in key
    requires forall j :: 0 <= j < |keys| ==> '=' !in keys[j]
    requires forall j, k :: 0 <= j < k < |keys| ==> keys[j] != keys[k]
    requires Lookup(rest, key) == None
    ensures key !in keys ==> Lookup(Pairs(keys, values, enc) + rest, key) == None
    ensures forall i :: 0 <= i < |keys| && keys[i] == key ==>
              Lookup(Pairs(keys, values, enc) + rest, key) == Encoded(values[i], enc)
  {
    if keys != [] {
      var tail := Pairs(keys[1..], values[1..], enc);
      LookupPairs(keys[1..], values[1..], enc, rest, key);
      var all := Pairs(keys, values, enc) + rest;
      if key !in keys {
        assert key !in keys[1..] by {
          forall j | 0 <= j < |keys| - 1 ensures keys[1..][j] != key {
            assert keys[1..][j] == keys[j + 1];
          }
        }
      }
      if values[0].Some? {
        var p := keys[0] + "=" + enc(values[0].value);
        assert all == [p] + (tail + rest);
        if keys[0] == key {
          assert p[|key| + 1..] == enc(values[0].value);
          assert Lookup(all, key) == Some(enc(values[0].value));
        } else {
          if StartsWith(p, key + "=") {
            KeyPrefixUnique(key, keys[0], enc(values[0].value));
          }
          assert Lookup(all, key) == Lookup(tail + rest, key);
        }
      } else {
        assert all == tail + rest;
      }
      forall i | 0 <= i < |keys| && keys[i] == key
        ensures Lookup(all, key) == Encoded(values[i], enc)
      {
        if i > 0 {
          assert keys[1..][i - 1] == key;
          assert keys[0] != key;
        } else {
          assert key !in keys[1..];
        }
      }
    } else {
      assert Pairs(keys, values, enc) + rest == rest;
    }
  }

  /** The seven keys are distinct, hold no `=`, and none starts with `e` as `env[]` does. */
  lemma KeysWellFormed()
    ensures forall j :: 0 <= j < |Keys| ==> '=' !in Keys[j] && |Keys[j]| >= 1 && Keys[j][0] != 'e'
    ensures forall j, k :: 0 <= j < k < |Keys| ==> Keys[j] != Keys[k]
  {
    forall j, k | 0 <= j < k < |Keys| ensures Keys[j] != Keys[k] {
      assert |Keys[j]| != |Keys[k]| || Keys[j][0] != Keys[k][0];
    }
  }

  lemma {:induction false} LookupEnvNone(es: seq<string>, enc: string -> string, key: string)
    requires |key| >= 1 && key[0] != 'e'
    ensures Lookup(EnvPairs(es, enc), key) == None
    decreases |es|
  {
    if es != [] {
      var ep := EnvPairs(es, enc);
      assert ep[0][0] == 'e';
      assert ep[1..] == EnvPairs(es[1..], enc);
      LookupEnvNone(es[1..], enc, key);
    }
  }

  /** Reading the query back recovers each field: the encoded value under its key when
      the field is present, nothing when it is null or undefined. */
  lemma QueryRoundTrip(f: Fields, env: Option<seq<string>>, enc: string -> string, i: nat)
    requires NoAmpersand(enc) && i < |Keys|
    ensures Lookup(Split(QueryString(f, env, enc)[1..], '&'), Keys[i]) == Encoded(Values(f)[i], enc)
  {
    QueryPieces(f, env, enc);
    var rest := match env
                case None => []
                case Some(es) => if es == [] then [""] else EnvPairs(es, enc);
    var key := Keys[i];
    KeysWellFormed();
    assert Lookup(rest, key) == None by {
      if env.Some? && env.value != [] {
        LookupEnvNone(env.value, enc, key);
      }
    }
    LookupPairs(Keys, Values(f), enc, rest, key);
  }
}
