/** JSClassProfile: a value profile that remembers which JSClass an operation
    has seen. It starts uninitialised, becomes monomorphic on the first class
    it sees and polymorphic on the first different one, and stays polymorphic.
    Whatever its state, it always hands back the class it was given. */
module ClassProfile {
  import opened Wrappers

  /** A JSClass, compared by identity. */
  datatype JSClass = JSClass(id: nat)

  /** The part of a JSDynamicObject that the profile looks at: its shape,
      which records the object's JSClass. */
  datatype Shape = Shape(jsClass: JSClass)
  datatype JSObject = JSObject(shape: Shape)

  // ---------------------------------------------------------------------------
  // The base and uncached profiles: no state, the class is returned as is

  /** JSClassProfile.getJSClass of the base profile: the class of the object's
      shape. The cached profile is specified against it. */
  function BaseGetJSClass(obj: JSObject): (r: JSClass)
    ensures r == obj.shape.jsClass
  {
    obj.shape.jsClass
  }

  /** JSClassProfile.profile of the base profile: the identity, null included.
      The cached profile is specified against it. */
  function BaseProfile(jsClass: Option<JSClass>): (r: Option<JSClass>)
    ensures r == jsClass
  {
    jsClass
  }

  // ---------------------------------------------------------------------------
  // The cached profile's state machine

  /** The two fields of a cached profile: the expected class (`None` for Java's
      null) and whether a second class has been seen. */
  datatype ProfileState = ProfileState(expected: Option<JSClass>, polymorphic: bool)

  const Fresh: ProfileState := ProfileState(None, false)

  /** The reachable states: a profile only turns polymorphic once it has an expected class. */
  predicate Reachable(s: ProfileState) {
    s.polymorphic ==> s.expected.Some?
  }

  /** The state after the profile has seen `jsClass` (`None` for Java's null,
      which `profile` may be given). A null matches a fresh profile's null
      expected class, so a fresh profile ignores it. */
  function Observe(s: ProfileState, jsClass: Option<JSClass>): (r: ProfileState)
    ensures Reachable(s) ==> Reachable(r)
  {
    if s.polymorphic then s
    else if s.expected == jsClass then s
    else if s.expected.None? then ProfileState(jsClass, false)
    else ProfileState(s.expected, true)
  }

  /** 0 while uninitialised, 1 while monomorphic, 2 once polymorphic. */
  function Rank(s: ProfileState): nat {
    if s.polymorphic then 2 else if s.expected.Some? then 1 else 0
  }

  /** The first class seen on a fresh profile becomes the expected class. */
  lemma FirstClassRecorded(jsClass: JSClass)
    ensures Observe(Fresh, Some(jsClass)) == ProfileState(Some(jsClass), false)
  {
  }

  /** A null seen by a fresh profile leaves it fresh. */
  lemma NullKeepsFresh()
    ensures Observe(Fresh, None) == Fresh
  {
  }

  /** A class other than the expected one, null included, makes a monomorphic
      profile polymorphic and keeps the expected class. */
  lemma OtherClassGoesPolymorphic(s: ProfileState, jsClass: Option<JSClass>)
    requires !s.polymorphic && s.expected.Some? && s.expected != jsClass
    ensures Observe(s, jsClass) == ProfileState(s.expected, true)
  {
  }

  /** The expected class leaves the state unchanged, and so does any class once polymorphic. */
  lemma ObserveUnchanged(s: ProfileState, jsClass: Option<JSClass>)
    ensures Observe(s, jsClass) == s <==> s.polymorphic || s.expected == jsClass
  {
  }

  /** The state only moves forward, and an expected class once recorded is never replaced. */
  lemma ObserveMonotone(s: ProfileState, jsClass: Option<JSClass>)
    ensures Rank(s) <= Rank(Observe(s, jsClass))
    ensures s.expected.Some? ==> Observe(s, jsClass).expected == s.expected
    ensures Rank(Observe(s, jsClass)) <= Rank(s) + 1
  {
  }

  /** Seeing the same class twice in a row is the same as seeing it once. */
  lemma ObserveIdempotent(s: ProfileState, jsClass: Option<JSClass>)
    ensures Observe(Observe(s, jsClass), jsClass) == Observe(s, jsClass)
  {
  }

  /** The state after seeing the classes of `classes` in order. */
  function ObserveAll(s: ProfileState, classes: seq<Option<JSClass>>): (r: ProfileState)
    ensures Rank(s) <= Rank(r)
    decreases |classes|
  {
    if |classes| == 0 then s
    else
      ObserveMonotone(s, classes[0]);
      ObserveAll(Observe(s, classes[0]), classes[1..])
  }

  /** A polymorphic profile stays as it is, whatever it sees. */
  lemma {:induction false} PolymorphicAbsorbing(s: ProfileState, classes: seq<Option<JSClass>>)
    requires s.polymorphic
    ensures ObserveAll(s, classes) == s
    decreases |classes|
  {
    if |classes| > 0 {
      PolymorphicAbsorbing(Observe(s, classes[0]), classes[1..]);
    }
  }

  /** A monomorphic profile keeps its class, and turns polymorphic exactly
      when it sees some other class or a null. */
  lemma {:induction false} MonomorphicHistory(expected: JSClass, classes: seq<Option<JSClass>>)
    ensures ObserveAll(ProfileState(Some(expected), false), classes).expected == Some(expected)
    ensures ObserveAll(ProfileState(Some(expected), false), classes).polymorphic
        <==> exists i :: 0 <= i < |classes| && classes[i] != Some(expected)
    decreases |classes|
  {
    if |classes| > 0 {
      if classes[0] == Some(expected) {
        MonomorphicHistory(expected, classes[1..]);
        if exists i :: 0 <= i < |classes| && classes[i] != Some(expected) {
          var i :| 0 <= i < |classes| && classes[i] != Some(expected);
          assert classes[1..][i - 1] != Some(expected);
        }
      } else {
        PolymorphicAbsorbing(ProfileState(Some(expected), true), classes[1..]);
      }
    }
  }

  /** A fresh profile that has seen only nulls is still fresh. */
  lemma {:induction false} FreshNullsOnly(classes: seq<Option<JSClass>>)
    requires forall i :: 0 <= i < |classes| ==> classes[i].None?
    ensures ObserveAll(Fresh, classes) == Fresh
    decreases |classes|
  {
    if |classes| > 0 {
      FreshNullsOnly(classes[1..]);
    }
  }

  /** From a fresh profile: the nulls before the first class are ignored, the
      first class `classes[k]` becomes the expected one, and the profile is
      polymorphic exactly when something different from it (another class or
      a null) comes later. */
  lemma {:induction false} FreshHistory(classes: seq<Option<JSClass>>, k: nat)
    requires k < |classes| && classes[k].Some?
    requires forall i :: 0 <= i < k ==> classes[i].None?
    ensures ObserveAll(Fresh, classes).expected == classes[k]
    ensures ObserveAll(Fresh, classes).polymorphic <==> exists j :: k < j < |classes| && classes[j] != classes[k]
    decreases k
  {
    if k == 0 {
      var first := classes[0].value;
      MonomorphicHistory(first, classes[1..]);
      if exists j :: 0 < j < |classes| && classes[j] != classes[0] {
        var j :| 0 < j < |classes| && classes[j] != classes[0];
        assert classes[1..][j - 1] != Some(first);
      }
      if exists i :: 0 <= i < |classes[1..]| && classes[1..][i] != Some(first) {
        var i :| 0 <= i < |classes[1..]| && classes[1..][i] != Some(first);
        assert classes[i + 1] != classes[0];
      }
    } else {
      FreshHistory(classes[1..], k - 1);
      assert classes[1..][k - 1] == classes[k];
      if exists j :: k < j < |classes| && classes[j] != classes[k] {
        var j :| k < j < |classes| && classes[j] != classes[k];
        assert classes[1..][j - 1] != classes[k];
      }
      if exists j :: k - 1 < j < |classes[1..]| && classes[1..][j] != classes[k] {
        var j :| k - 1 < j < |classes[1..]| && classes[1..][j] != classes[k];
        assert classes[j + 1] != classes[k];
      }
    }
  }

  // ---------------------------------------------------------------------------
  // The cached profile

  /** JSClassProfile.Cached: the state machine held in two mutable fields. */
  class CachedProfile {
    var expectedJSClass: Option<JSClass>
    var polymorphicJSClass: bool

    function State(): ProfileState
      reads this
    {
      ProfileState(expectedJSClass, polymorphicJSClass)
    }

    predicate Valid()
      reads this
    {
      Reachable(State())
    }

    /** JSClassProfile.create: a fresh profile. */
    constructor ()
      ensures State() == Fresh && Valid()
    {
      expectedJSClass := None;
      polymorphicJSClass := false;
    }

    /** Cached.getJSClass: the class of the object, as the base profile gives
        it, and the state after seeing that class. */
    method GetJSClass(obj: JSObject) returns (r: JSClass)
      requires Valid()
      modifies this
      ensures Valid()
      ensures r == BaseGetJSClass(obj)
      ensures State() == Observe(old(State()), Some(obj.shape.jsClass))
    {
      var jsobjectClass := obj.shape.jsClass;
      if !polymorphicJSClass {
        if Some(jsobjectClass) == expectedJSClass {
          return expectedJSClass.value;
        } else {
          if expectedJSClass.None? {
            expectedJSClass := Some(jsobjectClass);
          } else {
            polymorphicJSClass := true;
          }
        }
      }
      return jsobjectClass;
    }

    /** Cached.profile: the class it is given (possibly null), as the base
        profile returns it, and the state after seeing that class. */
    method Profile(jsobjectClass: Option<JSClass>) returns (r: Option<JSClass>)
      requires Valid()
      modifies this
      ensures Valid()
      ensures r == BaseProfile(jsobjectClass)
      ensures State() == Observe(old(State()), jsobjectClass)
    {
      if !polymorphicJSClass {
        if jsobjectClass == expectedJSClass {
          return expectedJSClass;
        } else {
          if expectedJSClass.None? {
            expectedJSClass := jsobjectClass;
          } else {
            polymorphicJSClass := true;
          }
        }
      }
      return jsobjectClass;
    }
  }
}
