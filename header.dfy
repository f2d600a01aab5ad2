/**
  The property block of the archive's Header entry: an ordered list of
  key/value pairs (prefix, product, version) whose values start out null and
  are overwritten only by truthy constructor arguments.
 */
module HeaderProperties {
  import opened Utilities

  /** One key of the properties object; a None value is the script's null. */
  datatype Property = Property(key: Bytes, value: Option<Bytes>)

  const PREFIX: Bytes := [0x70, 0x72, 0x65, 0x66, 0x69, 0x78]         // "prefix"
  const PRODUCT: Bytes := [0x70, 0x72, 0x6f, 0x64, 0x75, 0x63, 0x74]   // "product"
  const VERSION_KEY: Bytes := [0x76, 0x65, 0x72, 0x73, 0x69, 0x6f, 0x6e] // "version"

  /** The class field initialiser: three keys in insertion order, all null. */
  const DEFAULT_PROPERTIES: seq<Property> :=
    [Property(PREFIX, None), Property(PRODUCT, None), Property(VERSION_KEY, None)]

  /** Script truthiness of a string-or-null: null and '' are falsy. */
  predicate Truthy(v: Option<Bytes>) {
    v.Some? && |v.value| > 0
  }

  function Keys(ps: seq<Property>): (ks: seq<Bytes>)
    ensures |ks| == |ps| && forall i :: 0 <= i < |ps| ==> ks[i] == ps[i].key
  {
    seq(|ps|, i requires 0 <= i < |ps| => ps[i].key)
  }

  /**
    The properties a Header holds after its constructor: the defaults, each
    overwritten by its argument only when that argument is truthy.
   */
  function InitialProperties(prefix: Option<Bytes>, product: Option<Bytes>, version: Option<Bytes>): (ps: seq<Property>)
    ensures Keys(ps) == [PREFIX, PRODUCT, VERSION_KEY]
    ensures ps[0].value == (if Truthy(prefix) then prefix else None)
    ensures ps[1].value == (if Truthy(product) then product else None)
    ensures ps[2].value == (if Truthy(version) then version else None)
    ensures forall i :: 0 <= i < |ps| ==> ps[i].value.None? || Truthy(ps[i].value)
  {
    [ Property(PREFIX, if Truthy(prefix) then prefix else None),
      Property(PRODUCT, if Truthy(product) then product else None),
      Property(VERSION_KEY, if Truthy(version) then version else None) ]
  }

  /**
    The bytes that close a Header record: for each property in insertion
    order its key and a NUL, then its value and a NUL only when the value is
    truthy; finally a lone NUL (an empty key).
   */
  function PropertyBlock(ps: seq<Property>): Bytes {
    PropertyPairs(ps) + NULL_TERM
  }

  function PropertyPairs(ps: seq<Property>): Bytes {
    if |ps| == 0 then []
    else
      var p := ps[|ps| - 1];
      PropertyPairs(ps[..|ps| - 1]) + p.key + NULL_TERM + (if Truthy(p.value) then p.value.value + NULL_TERM else [])
  }

  /** With NUL-free keys and values, the block holds exactly one NUL per key, one per truthy value, and the closing one. */
  lemma {:induction false} PropertyBlockNulCount(ps: seq<Property>)
    requires forall i :: 0 <= i < |ps| ==> 0 !in ps[i].key && (ps[i].value.Some? ==> 0 !in ps[i].value.value)
    ensures multiset(PropertyBlock(ps))[0] == |ps| + TruthyCount(ps) + 1
  {
    PropertyPairsNulCount(ps);
  }

  function TruthyCount(ps: seq<Property>): nat {
    if |ps| == 0 then 0
    else TruthyCount(ps[..|ps| - 1]) + (if Truthy(ps[|ps| - 1].value) then 1 else 0)
  }

  lemma {:induction false} PropertyPairsNulCount(ps: seq<Property>)
    requires forall i :: 0 <= i < |ps| ==> 0 !in ps[i].key && (ps[i].value.Some? ==> 0 !in ps[i].value.value)
    ensures multiset(PropertyPairs(ps))[0] == |ps| + TruthyCount(ps)
  {
    if |ps| > 0 {
      var p := ps[|ps| - 1];
      var init := ps[..|ps| - 1];
      PropertyPairsNulCount(init);
      assert TruthyCount(ps) == TruthyCount(init) + (if Truthy(p.value) then 1 else 0);
      var value := if Truthy(p.value) then p.value.value + NULL_TERM else [];
      assert multiset(p.key)[0] == 0;
      assert multiset(NULL_TERM)[0] == 1;
      assert multiset(value)[0] == if Truthy(p.value) then 1 else 0 by {
        if Truthy(p.value) {
          assert multiset(p.value.value)[0] == 0;
          assert multiset(value) == multiset(p.value.value) + multiset(NULL_TERM);
        }
      }
      assert PropertyPairs(ps) == PropertyPairs(init) + p.key + NULL_TERM + value;
      assert multiset(PropertyPairs(ps)) ==
        multiset(PropertyPairs(init)) + multiset(p.key) + multiset(NULL_TERM) + multiset(value);
    }
  }
}
