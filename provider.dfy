/** EnumMappingProvider: an immutable table of mapping schemes keyed by
    their class, built from a list of schemes. */
module Provider {
  import opened EnumMapping

  /** The classes of the schemes in ms. */
  function Classes(ms: seq<AbstractEnumMapping>): set<string>
  {
    set i | 0 <= i < |ms| :: ms[i].scheme
  }

  /** The readonly provider: its table. */
  datatype EnumMappingProvider = EnumMappingProvider(enumMappings: map<string, AbstractEnumMapping>) {

    /** Every scheme is filed under its own class. */
    predicate Valid()
    {
      forall cls :: cls in enumMappings ==> enumMappings[cls].scheme == cls
    }

    /** `get`: the scheme filed under className, which must be in the table. */
    function Get(className: string): (r: AbstractEnumMapping)
      requires Valid() && className in enumMappings
      ensures r.scheme == className
    {
      enumMappings[className]
    }
  }

  /** The constructor: `array_combine` of the schemes' classes and the schemes,
      so a later scheme of the same class replaces an earlier one. */
  function Create(ms: seq<AbstractEnumMapping>): (p: EnumMappingProvider)
    ensures p.Valid()
    ensures p.enumMappings.Keys == Classes(ms)
    decreases |ms|
  {
    if ms == [] then EnumMappingProvider(map[])
    else
      var n := |ms| - 1;
      var init := Create(ms[..n]);
      assert Classes(ms) == Classes(ms[..n]) + {ms[n].scheme} by {
        forall c | c in Classes(ms) ensures c in Classes(ms[..n]) + {ms[n].scheme} {
          var i :| 0 <= i < |ms| && ms[i].scheme == c;
          if i < n {
            assert ms[..n][i] == ms[i];
          }
        }
        forall c | c in Classes(ms[..n]) ensures c in Classes(ms) {
          var i :| 0 <= i < n && ms[..n][i].scheme == c;
          assert ms[i] == ms[..n][i];
        }
      }
      EnumMappingProvider(init.enumMappings[ms[n].scheme := ms[n]])
  }

  /** Last wins: `get` of a class returns the last scheme of that class in the list. */
  lemma {:induction false} CreateLastWins(ms: seq<AbstractEnumMapping>, i: nat)
    requires i < |ms|
    requires forall j :: i < j < |ms| ==> ms[j].scheme != ms[i].scheme
    ensures ms[i].scheme in Create(ms).enumMappings
    ensures Create(ms).Get(ms[i].scheme) == ms[i]
    decreases |ms|
  {
    var n := |ms| - 1;
    if i < n {
      assert ms[..n][i] == ms[i];
      forall j | i < j < n ensures ms[..n][j].scheme != ms[..n][i].scheme {
        assert ms[..n][j] == ms[j];
      }
      CreateLastWins(ms[..n], i);
    }
  }
}
