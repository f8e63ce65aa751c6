/** The Redis popularity counters the star handlers read and bump: one integer per
    key `star_popularity:<id>`, present only while it exists in Redis. Whether the
    cache was initialized at startup (`is_cache_initialized()`) is the flag `up`. */
module Popularity {
  import opened Wrappers
  import Text

  /** The prefix of every counter key. */
  const KeyPrefix := "star_popularity:"

  /** `f"star_popularity:{star_id}"`. */
  function CounterKey(id: string): (k: string)
    ensures Text.StartsWith(k, KeyPrefix) && k[|KeyPrefix|..] == id
  {
    KeyPrefix + id
  }

  /** The value `INCR` leaves at `key`: an absent key counts from 0. */
  function Bumped(values: map<string, int>, key: string): (n: int)
    ensures key in values ==> n == values[key] + 1
    ensures key !in values ==> n == 1
  {
    if key in values then values[key] + 1 else 1
  }

  class Counters {
    var up: bool
    var values: map<string, int>

    constructor (up: bool, values: map<string, int>)
      ensures this.up == up && this.values == values
    {
      this.up := up;
      this.values := values;
    }

    /** `GET key` (the client decodes to text, which `int()` reads back). */
    method Get(key: string) returns (r: Option<int>)
      ensures r.Some? <==> key in values
      ensures r.Some? ==> r.value == values[key]
    {
      if key in values {
        r := Some(values[key]);
      } else {
        r := None;
      }
    }

    /** `INCR key`. */
    method Incr(key: string)
      modifies this
      ensures values == old(values)[key := Bumped(old(values), key)]
      ensures up == old(up)
    {
      values := values[key := Bumped(values, key)];
    }

    /** `KEYS <prefix>*`: every key with the prefix, once each, in an order Redis
        chooses. */
    method Keys(prefix: string) returns (ks: seq<string>)
      ensures forall k :: k in ks <==> k in values && Text.StartsWith(k, prefix)
      ensures forall i, j :: 0 <= i < j < |ks| ==> ks[i] != ks[j]
    {
      var rest := set k | k in values && Text.StartsWith(k, prefix);
      ks := [];
      while rest != {}
        invariant forall k :: k in ks <==> k in values && Text.StartsWith(k, prefix) && k !in rest
        invariant forall k :: k in rest ==> k in values && Text.StartsWith(k, prefix)
        invariant forall i, j :: 0 <= i < j < |ks| ==> ks[i] != ks[j]
        decreases |rest|
      {
        var k :| k in rest;
        ks := ks + [k];
        rest := rest - {k};
      }
    }
  }
}
