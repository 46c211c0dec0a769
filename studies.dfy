/**
 * A study as the domain model holds it: descriptive fields, the set of
 * members (users allowed to work on it) and the ordered list of components.
 * Two studies are equal exactly when their database ids are; a study can be
 * cloned (without members) together with clones of all its components.
 */
module Studies {
  import opened Common

  /** A user as a member of a study; users are told apart by e-mail. */
  datatype UserModel = UserModel(email: string)

  /** What a component holds besides its study link; its fields are not
      part of this model. */
  datatype ComponentContent = ComponentContent(title: string, payload: string)

  class ComponentModel {
    var study: StudyModel?
    const content: ComponentContent

    constructor (content: ComponentContent)
      ensures this.content == content && study == null
    {
      this.content := content;
      study := null;
    }

    /** The copy constructor: same content, no study yet. */
    constructor Clone(component: ComponentModel)
      ensures content == component.content && study == null
    {
      content := component.content;
      study := null;
    }
  }

  /**
   * A request to ComponentModel.changeComponentOrder: put `component` at
   * position `newIndex` of its study's list (how that is carried out is not
   * part of this model).
   */
  datatype OrderChange = OrderChange(component: ComponentModel, newIndex: int)

  // ---------------------------------------------------------------------
  // List operations of java.util.List on the component list

  /** List.indexOf: the first position of `c`, or -1. */
  function IndexOf(s: seq<ComponentModel>, c: ComponentModel): (r: int)
    ensures -1 <= r < |s|
    ensures r == -1 <==> c !in s
    ensures r >= 0 ==> s[r] == c && forall j :: 0 <= j < r ==> s[j] != c
  {
    if |s| == 0 then -1
    else if s[0] == c then 0
    else
      var r := IndexOf(s[1..], c);
      if r == -1 then -1 else r + 1
  }

  /** List.remove(Object): drops the first occurrence of `c`, if any. */
  function RemoveFirst(s: seq<ComponentModel>, c: ComponentModel): (r: seq<ComponentModel>)
    ensures c in s ==> |r| == |s| - 1
    ensures c !in s ==> r == s
  {
    if |s| == 0 then []
    else if s[0] == c then s[1..]
    else [s[0]] + RemoveFirst(s[1..], c)
  }

  /** Removing `c` cuts exactly its first occurrence out of the list; all
      other entries keep their relative order. */
  lemma {:induction false} RemoveFirstCutsFirstOccurrence(s: seq<ComponentModel>, c: ComponentModel)
    requires c in s
    ensures RemoveFirst(s, c) == s[..IndexOf(s, c)] + s[IndexOf(s, c) + 1..]
  {
    if s[0] != c {
      var t, i := s[1..], IndexOf(s, c);
      assert IndexOf(t, c) == i - 1;
      calc {
        RemoveFirst(s, c);
        [s[0]] + RemoveFirst(t, c);
        { RemoveFirstCutsFirstOccurrence(t, c); }
        [s[0]] + (t[..i - 1] + t[i..]);
        { assert t[..i - 1] == s[1..i] && t[i..] == s[i + 1..]; }
        [s[0]] + (s[1..i] + s[i + 1..]);
        { assert [s[0]] + s[1..i] == s[..i]; }
        s[..i] + s[i + 1..];
      }
    }
  }

  /** Removing takes out one copy of `c` and nothing else. */
  lemma {:induction false} RemoveFirstMultiset(s: seq<ComponentModel>, c: ComponentModel)
    ensures multiset(RemoveFirst(s, c)) == multiset(s) - multiset{c}
  {
    if |s| > 0 {
      var t := s[1..];
      assert s == [s[0]] + t;
      if s[0] == c {
        HeadRemoved(c, t);
      } else {
        RemoveFirstMultiset(t, c);
        OtherHeadKept(s[0], t, RemoveFirst(t, c), c);
      }
    }
  }

  lemma HeadRemoved<T>(c: T, t: seq<T>)
    ensures multiset(t) == multiset([c] + t) - multiset{c}
  {
    assert multiset([c] + t) == multiset{c} + multiset(t);
  }

  lemma OtherHeadKept<T>(x: T, t: seq<T>, u: seq<T>, c: T)
    requires x != c && multiset(u) == multiset(t) - multiset{c}
    ensures multiset([x] + u) == multiset([x] + t) - multiset{c}
  {
    assert multiset([x] + u) == multiset{x} + multiset(u);
    assert multiset([x] + t) == multiset{x} + multiset(t);
  }

  /** No component appears twice. */
  predicate Distinct(s: seq<ComponentModel>)
  {
    forall i, j :: 0 <= i < j < |s| ==> s[i] != s[j]
  }

  /** Without repetitions, the position of an entry is its index. */
  lemma IndexOfDistinct(s: seq<ComponentModel>, i: int)
    requires Distinct(s) && 0 <= i < |s|
    ensures IndexOf(s, s[i]) == i
  {
  }

  // ---------------------------------------------------------------------
  // hashCode

  const IntMin: int := -0x8000_0000
  const IntMax: int := 0x7FFF_FFFF

  /** The `int` a 32-bit operation leaves: two's-complement wrap-around. */
  function Wrap32(x: int): (r: int)
    ensures IntMin <= r <= IntMax
    ensures IntMin <= x <= IntMax ==> r == x
    ensures (r - x) % 0x1_0000_0000 == 0
  {
    (x - IntMin) % 0x1_0000_0000 + IntMin
  }

  /** Bitwise exclusive or of two non-negative numbers. */
  function Xor(a: nat, b: nat): (r: nat)
    decreases a + b
  {
    if a == 0 && b == 0 then 0
    else (if a % 2 != b % 2 then 1 else 0) + 2 * Xor(a / 2, b / 2)
  }

  /** Zero is the unit of exclusive or. */
  lemma {:induction false} XorZero(b: nat)
    ensures Xor(0, b) == b
    decreases b
  {
    if b != 0 {
      XorZero(b / 2);
    }
  }

  /** Long.hashCode: the upper and the lower 32 bits of the 64-bit pattern
      xor-ed, read as an `int`. */
  function LongHash(v: Long): (h: int)
    ensures IntMin <= h <= IntMax
  {
    var unsigned: nat := if v < 0 then v + 0x1_0000_0000_0000_0000 else v;
    Wrap32(Xor(unsigned / 0x1_0000_0000, unsigned % 0x1_0000_0000))
  }

  /** For a small non-negative id the hash is the id itself. */
  lemma LongHashSmall(v: Long)
    requires 0 <= v <= IntMax
    ensures LongHash(v) == v
  {
    XorZero(v);
  }

  // ---------------------------------------------------------------------
  // The study

  class StudyModel {
    var id: Option<Long>
    var title: Option<string>
    var description: Option<string>
    /** Timestamp of the creation or the last update, in milliseconds. */
    var date: Option<int>
    /** A locked study can't be changed. */
    var locked: bool
    var dirNamePrefix: Option<string>
    var jsonData: Option<string>
    var memberList: set<UserModel>
    var componentList: seq<ComponentModel>

    /** A new, empty study. */
    constructor ()
      ensures id == None && title == None && description == None && date == None
      ensures !locked && dirNamePrefix == None && jsonData == None
      ensures memberList == {} && componentList == []
    {
      id, title, description, date := None, None, None, None;
      locked, dirNamePrefix, jsonData := false, None, None;
      memberList, componentList := {}, [];
    }

    /**
     * The cloning constructor: the descriptive fields are copied, the clone
     * is unlocked, has no id, no date and no members, and holds a fresh
     * clone of each component, in the same order, pointing back to it.
     */
    constructor Clone(study: StudyModel)
      ensures title == study.title && description == study.description
      ensures dirNamePrefix == study.dirNamePrefix && jsonData == study.jsonData
      ensures id == None && date == None && !locked && memberList == {}
      ensures |componentList| == |study.componentList|
      ensures forall i :: 0 <= i < |componentList| ==>
        && fresh(componentList[i])
        && componentList[i].content == study.componentList[i].content
        && componentList[i].study == this
      ensures Distinct(componentList)
    {
      description := study.description;
      dirNamePrefix := study.dirNamePrefix;
      jsonData := study.jsonData;
      title := study.title;
      locked := false;
      id, date, memberList, componentList := None, None, {}, [];
      new;
      var originals := study.componentList;
      var i := 0;
      while i < |originals|
        invariant 0 <= i <= |originals|
        invariant |componentList| == i
        invariant title == study.title && description == study.description
        invariant dirNamePrefix == study.dirNamePrefix && jsonData == study.jsonData
        invariant id == None && date == None && !locked && memberList == {}
        invariant study.componentList == originals
        invariant forall j :: 0 <= j < i ==>
          && fresh(componentList[j])
          && componentList[j].content == originals[j].content
          && componentList[j].study == this
        invariant Distinct(componentList)
      {
        var clone := new ComponentModel.Clone(originals[i]);
        clone.study := this;
        componentList := componentList + [clone];
        i := i + 1;
      }
    }

    // --- members -------------------------------------------------------

    /** Set.contains on the member set. */
    predicate HasMember(user: UserModel)
      reads this
      ensures HasMember(user) <==> user in memberList
    {
      user in memberList
    }

    method AddMember(user: UserModel)
      modifies this`memberList
      ensures memberList == old(memberList) + {user}
      ensures HasMember(user)
      ensures forall u :: u != user ==> HasMember(u) == old(HasMember(u))
    {
      memberList := memberList + {user};
    }

    method RemoveMember(user: UserModel)
      modifies this`memberList
      ensures memberList == old(memberList) - {user}
      ensures !HasMember(user)
      ensures forall u :: u != user ==> HasMember(u) == old(HasMember(u))
    {
      memberList := memberList - {user};
    }

    // --- components ----------------------------------------------------

    /** List.contains: the component has an index in the list. */
    predicate HasComponent(component: ComponentModel)
      reads this
      ensures HasComponent(component) <==> IndexOf(componentList, component) >= 0
    {
      component in componentList
    }

    /** Appends `component` at the end of the list. */
    method AddComponent(component: ComponentModel)
      modifies this`componentList
      ensures componentList == old(componentList) + [component]
      ensures HasComponent(component)
    {
      componentList := componentList + [component];
    }

    /** Removes the first occurrence of `component`, if any. */
    method RemoveComponent(component: ComponentModel)
      modifies this`componentList
      ensures componentList == RemoveFirst(old(componentList), component)
      ensures Distinct(old(componentList)) ==> !HasComponent(component)
    {
      if component in componentList {
        RemoveFirstCutsFirstOccurrence(componentList, component);
        var i := IndexOf(componentList, component);
        if Distinct(componentList) {
          forall j | 0 <= j < |componentList| && j != i
            ensures componentList[j] != component
          {
            assert componentList[i] == component;
          }
        }
      }
      componentList := RemoveFirst(componentList, component);
    }

    /** The first component, or null for an empty list. */
    function GetFirstComponent(): (first: ComponentModel?)
      reads this
      ensures first == null <==> |componentList| == 0
      ensures first != null ==> first == componentList[0] && HasComponent(first)
    {
      if |componentList| > 0 then componentList[0] else null
    }

    /**
     * The component after the first occurrence of `component`, or null when
     * that is the last one. For a component not in the list, indexOf gives
     * -1 and the answer is the first component.
     */
    function GetNextComponent(component: ComponentModel): (next: ComponentModel?)
      reads this
      ensures component in componentList ==>
        (next == null <==> IndexOf(componentList, component) == |componentList| - 1)
      ensures component in componentList && next != null ==>
        next == componentList[IndexOf(componentList, component) + 1]
      ensures component !in componentList ==> next == GetFirstComponent()
    {
      var index := IndexOf(componentList, component);
      if index < |componentList| - 1 then componentList[index + 1] else null
    }

    /** Walking from the first component with GetNextComponent visits the
        list in order and ends with null after the last. */
    lemma NextFollowsListOrder(i: int)
      requires Distinct(componentList) && 0 <= i < |componentList|
      ensures GetNextComponent(componentList[i]) ==
        if i == |componentList| - 1 then null else componentList[i + 1]
    {
      IndexOfDistinct(componentList, i);
    }

    /** The two changeComponentOrder requests that swap the positions of
        two components. */
    function ComponentOrderSwap(component1: ComponentModel, component2: ComponentModel): (r: seq<OrderChange>)
      reads this
      ensures |r| == 2 && r[0].component == component1 && r[1].component == component2
      ensures r[0].newIndex == IndexOf(componentList, component2)
      ensures r[1].newIndex == IndexOf(componentList, component1)
      ensures component2 in componentList ==> componentList[r[0].newIndex] == component2
      ensures component2 !in componentList ==> r[0].newIndex == -1
      ensures component1 in componentList ==> componentList[r[1].newIndex] == component1
      ensures component1 !in componentList ==> r[1].newIndex == -1
    {
      var index1 := IndexOf(componentList, component1);
      var index2 := IndexOf(componentList, component2);
      [OrderChange(component1, index2), OrderChange(component2, index1)]
    }

    /** Moves `component` one place towards the front: the requests swapping
        it with its predecessor, or none when it is first or absent. */
    function ComponentOrderMinusOne(component: ComponentModel): (r: seq<OrderChange>)
      reads this
      ensures r == [] <==> IndexOf(componentList, component) <= 0
    {
      var index := IndexOf(componentList, component);
      if index > 0 then ComponentOrderSwap(component, componentList[index - 1]) else []
    }

    /** Moves `component` one place towards the end: the requests swapping
        it with its successor, or none when it is last. */
    function ComponentOrderPlusOne(component: ComponentModel): (r: seq<OrderChange>)
      reads this
      ensures r == [] <==> IndexOf(componentList, component) == |componentList| - 1
    {
      var index := IndexOf(componentList, component);
      if index < |componentList| - 1 then ComponentOrderSwap(component, componentList[index + 1]) else []
    }

    /** In a list without repetitions, moving the component at i up or down
        asks for exactly the swap with its neighbour. */
    lemma MoveSwapsNeighbours(i: int)
      requires Distinct(componentList) && 0 <= i < |componentList|
      ensures i > 0 ==>
        ComponentOrderMinusOne(componentList[i]) ==
          [OrderChange(componentList[i], i - 1), OrderChange(componentList[i - 1], i)]
      ensures i < |componentList| - 1 ==>
        ComponentOrderPlusOne(componentList[i]) ==
          [OrderChange(componentList[i], i + 1), OrderChange(componentList[i + 1], i)]
    {
      IndexOfDistinct(componentList, i);
      if i > 0 { IndexOfDistinct(componentList, i - 1); }
      if i < |componentList| - 1 { IndexOfDistinct(componentList, i + 1); }
    }

    /** A component not in a non-empty list is "moved down" by swapping it
        with the first component, which is asked to go to position -1. */
    lemma PlusOneOnAbsentComponent(component: ComponentModel)
      requires component !in componentList && |componentList| > 0
      ensures ComponentOrderPlusOne(component) ==
        [OrderChange(component, 0), OrderChange(componentList[0], -1)]
    {
    }

    // --- identity ------------------------------------------------------

    /** Object.equals: studies are equal iff their ids are, two missing ids
        included. */
    function Equals(other: StudyModel?): (r: bool)
      reads this, other
      ensures r <==> other != null && id == other.id
    {
      if this == other then true
      else if other == null then false
      else if id.None? then other.id.None?
      else id == other.id
    }

    /** Object.hashCode: 31 + the id's hash (0 for a missing id), in `int`. */
    function HashCode(): (h: int)
      reads this
      ensures IntMin <= h <= IntMax
      ensures id.None? ==> h == 31
    {
      var prime := 31;
      var result := 1;
      Wrap32(prime * result + (if id.None? then 0 else LongHash(id.value)))
    }

    /** hashCode is consistent with equals. */
    lemma EqualsThenSameHash(other: StudyModel)
      requires Equals(other)
      ensures HashCode() == other.HashCode()
    {
    }

    /** For ids below 2^31 - 31 the hash is 31 + id, so distinct such ids
        get distinct hashes. */
    lemma SmallIdHash()
      requires id.Some? && 0 <= id.value < IntMax - 31
      ensures HashCode() == 31 + id.value
    {
      LongHashSmall(id.value);
    }
  }

  /** equals is an equivalence on studies. */
  lemma EqualsIsEquivalence(a: StudyModel, b: StudyModel, c: StudyModel)
    ensures a.Equals(a)
    ensures a.Equals(b) ==> b.Equals(a)
    ensures a.Equals(b) && b.Equals(c) ==> a.Equals(c)
  {
  }
}
