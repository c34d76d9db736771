/** Rule routing and result merging of `ovsx-router-client.ts`. */
module Router {
  import opened Wrappers

  type Uri = string

  /** A filter's verdict is `None` when it does not apply: null and undefined are removed. */
  datatype Rule<!T> = Rule(filters: seq<T -> Option<bool>>, use: seq<Uri>)

  /** A rule matches when some filter applies and every filter that applies accepts. */
  ghost predicate Matches<T>(rule: Rule<T>, x: T) {
    && (exists i :: 0 <= i < |rule.filters| && rule.filters[i](x).Some?)
    && (forall i | 0 <= i < |rule.filters| && rule.filters[i](x).Some? :: rule.filters[i](x).value)
  }

  method RuleMatches<T>(rule: Rule<T>, x: T) returns (matches: bool)
    ensures matches <==> Matches(rule, x)
  {
    var results: seq<bool> := [];
    for i := 0 to |rule.filters|
      invariant results != [] <==> exists j :: 0 <= j < i && rule.filters[j](x).Some?
      invariant forall j | 0 <= j < i && rule.filters[j](x).Some? :: rule.filters[j](x).value in results
      invariant forall b | b in results :: exists j :: 0 <= j < i && rule.filters[j](x) == Some(b)
    {
      var verdict := rule.filters[i](x);
      if verdict.Some? {
        ghost var before := results;
        results := results + [verdict.value];
        assert results[|before|] == verdict.value && forall b | b in before :: b in results;
        assert forall b | b in results :: b == verdict.value || b in before;
      }
    }
    matches := results != [] && forall b | b in results :: b;
  }

  /** The index of the first matching rule. */
  ghost predicate FirstMatch<T>(rules: seq<Rule<T>>, x: T, i: nat) {
    i < |rules| && Matches(rules[i], x) && forall j | 0 <= j < i :: !Matches(rules[j], x)
  }

  ghost predicate NoMatch<T>(rules: seq<Rule<T>>, x: T) {
    forall j | 0 <= j < |rules| :: !Matches(rules[j], x)
  }

  /** `runRules`: the first rule that matches, if any. */
  method RunRules<T>(rules: seq<Rule<T>>, x: T) returns (rule: Option<Rule<T>>)
    ensures rule.None? ==> NoMatch(rules, x)
    ensures rule.Some? ==> exists i: nat :: FirstMatch(rules, x, i) && rules[i] == rule.value
  {
    for i := 0 to |rules|
      invariant forall j | 0 <= j < i :: !Matches(rules[j], x)
    {
      var matches := RuleMatches(rules[i], x);
      if matches {
        assert FirstMatch(rules, x, i);
        return Some(rules[i]);
      }
    }
    rule := None;
  }

  /** An entry of registry `uri` survives when the first matching rule names the registry or no rule matches. */
  ghost predicate Survives<T>(rules: seq<Rule<T>>, uri: Uri, x: T) {
    NoMatch(rules, x) || exists i: nat :: FirstMatch(rules, x, i) && uri in rules[i].use
  }

  method FilterExtension<T>(rules: seq<Rule<T>>, uri: Uri, x: T) returns (r: Option<T>)
    ensures r == if Survives(rules, uri, x) then Some(x) else None
  {
    var rule := RunRules(rules, x);
    r := if rule.None? || uri in rule.value.use then Some(x) else None;
    if rule.Some? {
      ghost var i: nat :| FirstMatch(rules, x, i) && rules[i] == rule.value;
      assert forall j: nat | FirstMatch(rules, x, j) :: j == i;
    }
  }

  // ----- Filtering the result of one registry

  ghost function Survivors<T>(rules: seq<Rule<T>>, uri: Uri, extensions: seq<T>): seq<T> {
    if extensions == [] then []
    else
      var init, last := extensions[..|extensions| - 1], extensions[|extensions| - 1];
      Survivors(rules, uri, init) + if Survives(rules, uri, last) then [last] else []
  }

  /** The places of the entries that survive, in order. */
  ghost function SurvivingPlaces<T>(rules: seq<Rule<T>>, uri: Uri, extensions: seq<T>): (places: seq<nat>)
    ensures forall k, l | 0 <= k < l < |places| :: places[k] < places[l]
    ensures forall i: nat :: i in places <==> i < |extensions| && Survives(rules, uri, extensions[i])
  {
    if extensions == [] then []
    else
      var n := |extensions| - 1;
      var before := SurvivingPlaces(rules, uri, extensions[..n]);
      assert forall k | 0 <= k < |before| :: before[k] in before;
      if Survives(rules, uri, extensions[n]) then before + [n] else before
  }

  /** No surviving entry is dropped, repeated or moved. */
  lemma {:induction false} SurvivorsAreExactly<T>(rules: seq<Rule<T>>, uri: Uri, extensions: seq<T>)
    ensures var r, places := Survivors(rules, uri, extensions), SurvivingPlaces(rules, uri, extensions);
            |r| == |places| && forall k | 0 <= k < |r| :: places[k] < |extensions| && r[k] == extensions[places[k]]
  {
    if extensions != [] {
      SurvivorsAreExactly(rules, uri, extensions[..|extensions| - 1]);
    }
  }

  method FilterAll<T>(rules: seq<Rule<T>>, uri: Uri, extensions: seq<T>) returns (r: seq<T>)
    ensures r == Survivors(rules, uri, extensions)
  {
    r := [];
    for i := 0 to |extensions|
      invariant r == Survivors(rules, uri, extensions[..i])
    {
      assert extensions[..i + 1][..i] == extensions[..i];
      var x := FilterExtension(rules, uri, extensions[i]);
      r := if x.Some? then r + [x.value] else r;
    }
    assert extensions[..|extensions|] == extensions;
  }

  // ----- createMapping

  /**
   * `createMapping`: `f` is called with every value and its index. Only the answer of the last call
   * for a value is kept.
   */
  method CreateMapping<U>(values: seq<Uri>, f: (Uri, nat) -> U) returns (m: seq<(Uri, U)>)
    ensures m == Mapping(values, f)
    ensures forall i, j | 0 <= i < j < |m| :: m[i].0 != m[j].0
    ensures forall v :: v in values <==> exists i | 0 <= i < |m| :: m[i].0 == v
  {
    m := [];
    for i := 0 to |values|
      invariant m == Mapping(values[..i], f)
    {
      assert values[..i + 1][..i] == values[..i];
      SetMapping(values[..i + 1], f);
      m := MapSet(m, values[i], f(values[i], i));
    }
    assert values[..|values|] == values;
    forall v ensures v in values <==> exists i | 0 <= i < |m| :: m[i].0 == v {
      if v in values {
        var i :| 0 <= i < |Distinct(values)| && Distinct(values)[i] == v;
        assert m[i].0 == v;
      }
    }
  }

  /** The distinct registries in the order of their first occurrence. */
  function Distinct(values: seq<Uri>): (r: seq<Uri>)
    ensures forall i, j | 0 <= i < j < |r| :: r[i] != r[j]
    ensures forall v :: v in r <==> v in values
  {
    if values == [] then []
    else
      assert values == values[..|values| - 1] + [values[|values| - 1]];
      var init, last := Distinct(values[..|values| - 1]), values[|values| - 1];
      if last in init then init else init + [last]
  }

  function LastIndex(values: seq<Uri>, v: Uri): (i: nat)
    requires v in values
    ensures i < |values| && values[i] == v && v !in values[i + 1..]
  {
    var n := |values| - 1;
    if values[n] == v then n
    else
      assert values == values[..n] + [values[n]];
      var i := LastIndex(values[..n], v);
      assert values[i + 1..] == values[..n][i + 1..] + [values[n]];
      i
  }

  function Mapping<U>(values: seq<Uri>, f: (Uri, nat) -> U): (m: seq<(Uri, U)>)
    ensures |m| == |Distinct(values)|
  {
    var keys := Distinct(values);
    seq(|keys|, i requires 0 <= i < |keys| => (keys[i], f(keys[i], LastIndex(values, keys[i]))))
  }

  lemma LastIndexLonger(values: seq<Uri>, v: Uri)
    requires values != [] && v in values
    ensures var n := |values| - 1;
            if v == values[n] then LastIndex(values, v) == n
            else v in values[..n] && LastIndex(values, v) == LastIndex(values[..n], v)
  {
    assert values == values[..|values| - 1] + [values[|values| - 1]];
  }

  lemma SetMapping<U>(values: seq<Uri>, f: (Uri, nat) -> U)
    requires values != []
    ensures var n := |values| - 1;
            Mapping(values, f) == MapSet(Mapping(values[..n], f), values[n], f(values[n], n))
  {
    var n := |values| - 1;
    var k, before, after := values[n], Mapping(values[..n], f), Mapping(values, f);
    var keys := Distinct(values[..n]);
    forall i | 0 <= i < |keys| && keys[i] != k ensures after[i] == before[i] {
      LastIndexLonger(values, keys[i]);
    }
    LastIndexLonger(values, k);
    if k in keys {
      var at :| 0 <= at < |keys| && keys[at] == k;
      MapSetAt(before, at, f(k, n));
      assert after == before[at := (k, f(k, n))];
    } else {
      MapSetNew(before, k, f(k, n));
      assert Distinct(values) == keys + [k] && after[|keys|] == (k, f(k, n));
      assert after == before + [(k, f(k, n))];
    }
  }

  lemma {:induction false} MapSetAt<U>(m: seq<(Uri, U)>, at: nat, v: U)
    requires at < |m| && forall i | 0 <= i < at :: m[i].0 != m[at].0
    ensures MapSet(m, m[at].0, v) == m[at := (m[at].0, v)]
  {
    if at > 0 {
      MapSetAt(m[1..], at - 1, v);
    }
  }

  // ----- interleave

  /** A place in the lists: the index within a list, and the position of the list. */
  datatype Place = Place(index: nat, list: nat)

  ghost predicate Earlier(a: Place, b: Place) {
    a.index < b.index || (a.index == b.index && a.list < b.list)
  }

  function MaxLength<T>(lists: seq<seq<T>>): (n: nat)
    ensures forall l | l in lists :: |l| <= n
  {
    if lists == [] then 0
    else
      var n := MaxLength(lists[1..]);
      assert forall l | l in lists :: l == lists[0] || l in lists[1..];
      if n < |lists[0]| then |lists[0]| else n
  }

  ghost predicate ValidPlaces<T>(lists: seq<seq<T>>, places: seq<Place>) {
    forall p | p in places :: p.list < |lists| && p.index < |lists[p.list]|
  }

  /** The order is fair: place by place, every entry of the lists once, the lower index first, then the earlier list. */
  ghost predicate Fair<T>(lists: seq<seq<T>>, places: seq<Place>, r: seq<T>) {
    && |places| == |r|
    && ValidPlaces(lists, places)
    && (forall k | 0 <= k < |r| :: r[k] == lists[places[k].list][places[k].index])
    && (forall k, l | 0 <= k < l < |places| :: Earlier(places[k], places[l]))
    && (forall i, j | 0 <= j < |lists| && 0 <= i < |lists[j]| :: Place(i, j) in places)
  }

  /** `r` holds the entries of the lists in the fair order. */
  ghost predicate FairlyInterleaved<T>(lists: seq<seq<T>>, r: seq<T>) {
    exists places :: Fair(lists, places, r)
  }

  /** What the loop has done before it comes to `next`. */
  ghost predicate FairUpTo<T>(lists: seq<seq<T>>, places: seq<Place>, r: seq<T>, next: Place) {
    && |places| == |r|
    && ValidPlaces(lists, places) && (forall p | p in places :: Earlier(p, next))
    && (forall k | 0 <= k < |r| :: r[k] == lists[places[k].list][places[k].index])
    && (forall k, l | 0 <= k < l < |places| :: Earlier(places[k], places[l]))
    && (forall i, j | 0 <= j < |lists| && 0 <= i < |lists[j]| && Earlier(Place(i, j), next) :: Place(i, j) in places)
  }

  lemma NextPlace<T>(lists: seq<seq<T>>, places: seq<Place>, r: seq<T>, i: nat, j: nat)
    requires FairUpTo(lists, places, r, Place(i, j)) && j < |lists|
    ensures if i < |lists[j]| then FairUpTo(lists, places + [Place(i, j)], r + [lists[j][i]], Place(i, j + 1))
            else FairUpTo(lists, places, r, Place(i, j + 1))
  {
    if i < |lists[j]| {
      assert (places + [Place(i, j)])[|places|] == Place(i, j);
    }
  }

  method Interleave<T>(lists: seq<seq<T>>) returns (interleaved: seq<T>)
    ensures FairlyInterleaved(lists, interleaved)
  {
    interleaved := [];
    ghost var places: seq<Place> := [];
    var length := MaxLength(lists);
    for i := 0 to length
      invariant FairUpTo(lists, places, interleaved, Place(i, 0))
    {
      for j := 0 to |lists|
        invariant FairUpTo(lists, places, interleaved, Place(i, j))
      {
        NextPlace(lists, places, interleaved, i, j);
        if i < |lists[j]| {
          interleaved, places := interleaved + [lists[j][i]], places + [Place(i, j)];
        }
      }
    }
    assert Fair(lists, places, interleaved);
  }

  /** The order of the merged entries is determined by the lists. */
  lemma FairIsUnique<T>(lists: seq<seq<T>>, r: seq<T>, s: seq<T>)
    requires FairlyInterleaved(lists, r) && FairlyInterleaved(lists, s)
    ensures r == s
  {
    var p :| Fair(lists, p, r);
    var q :| Fair(lists, q, s);
    SortedPlacesAreUnique(p, q);
  }

  lemma {:induction false} SortedPlacesAreUnique(p: seq<Place>, q: seq<Place>)
    requires forall k, l | 0 <= k < l < |p| :: Earlier(p[k], p[l])
    requires forall k, l | 0 <= k < l < |q| :: Earlier(q[k], q[l])
    requires forall x :: x in p <==> x in q
    ensures p == q
  {
    assert (p != [] ==> p[0] in q) && (q != [] ==> q[0] in p);
    if p != [] {
      assert p[0] == q[0];
      forall x ensures x in p[1..] <==> x in q[1..] {
        if x in p[1..] {
          var k :| 0 <= k < |p[1..]| && p[1..][k] == x;
          assert Earlier(p[0], p[k + 1]) && x in q && q == [q[0]] + q[1..];
        }
        if x in q[1..] {
          var k :| 0 <= k < |q[1..]| && q[1..][k] == x;
          assert Earlier(q[0], q[k + 1]) && x in p && p == [p[0]] + p[1..];
        }
      }
      SortedPlacesAreUnique(p[1..], q[1..]);
    }
  }

  /** Each list keeps its own order in the merged one. */
  lemma FairKeepsOrder<T>(lists: seq<seq<T>>, places: seq<Place>, r: seq<T>, k: nat, l: nat)
    requires Fair(lists, places, r) && k < |r| && l < |r| && places[k].list == places[l].list
    ensures places[k].index < places[l].index <==> k < l
  {
    if k < l {
      assert Earlier(places[k], places[l]);
    } else if l < k {
      assert Earlier(places[l], places[k]);
    }
  }

  function Flatten<T>(lists: seq<seq<T>>): seq<T> {
    if lists == [] then [] else lists[0] + Flatten(lists[1..])
  }

  ghost function At<T>(lists: seq<seq<T>>, places: seq<Place>): seq<T>
    requires ValidPlaces(lists, places)
  {
    seq(|places|, k requires 0 <= k < |places| => assert places[k] in places; lists[places[k].list][places[k].index])
  }

  /** The merged entries are a permutation of the entries of the lists. */
  lemma FairIsPermutation<T>(lists: seq<seq<T>>, r: seq<T>)
    requires FairlyInterleaved(lists, r)
    ensures multiset(r) == multiset(Flatten(lists))
  {
    var places :| Fair(lists, places, r);
    AllPlacesRead(lists, 0);
    assert lists[0..] == lists;
    assert r == At(lists, places);
    SamePlacesSameEntries(lists, places, AllPlaces(lists, 0));
  }

  /** The places of the lists from `from` on, list by list. */
  ghost function AllPlaces<T>(lists: seq<seq<T>>, from: nat): seq<Place>
    requires from <= |lists|
    decreases |lists| - from
  {
    if from == |lists| then []
    else seq(|lists[from]|, i requires 0 <= i < |lists[from]| => Place(i, from)) + AllPlaces(lists, from + 1)
  }

  lemma {:induction false} AllPlacesRead<T>(lists: seq<seq<T>>, from: nat)
    requires from <= |lists|
    ensures forall p :: p in AllPlaces(lists, from) <==> from <= p.list < |lists| && p.index < |lists[p.list]|
    ensures forall k, l | 0 <= k < l < |AllPlaces(lists, from)| ::
              AllPlaces(lists, from)[k] != AllPlaces(lists, from)[l]
    ensures At(lists, AllPlaces(lists, from)) == Flatten(lists[from..])
    decreases |lists| - from
  {
    if from < |lists| {
      AllPlacesRead(lists, from + 1);
      var row := seq(|lists[from]|, i requires 0 <= i < |lists[from]| => Place(i, from));
      var rest := AllPlaces(lists, from + 1);
      forall p ensures p in row <==> p.list == from && p.index < |lists[from]| {
        if p.list == from && p.index < |lists[from]| {
          assert row[p.index] == p;
        }
      }
      assert At(lists, row + rest) == lists[from] + At(lists, rest);
      assert lists[from..][1..] == lists[from + 1..];
    }
  }

  /** Reading the same distinct places in another order gives the same multiset. */
  lemma {:induction false} SamePlacesSameEntries<T>(lists: seq<seq<T>>, p: seq<Place>, q: seq<Place>)
    requires ValidPlaces(lists, p)
    requires forall x :: x in p <==> x in q
    requires forall k, l | 0 <= k < l < |p| :: p[k] != p[l]
    requires forall k, l | 0 <= k < l < |q| :: q[k] != q[l]
    ensures multiset(At(lists, p)) == multiset(At(lists, q))
    decreases |p|
  {
    assert (p != [] ==> p[0] in q) && (q != [] ==> q[0] in p);
    if p != [] {
      var k :| 0 <= k < |q| && q[k] == p[0];
      WithoutOne(p, q, k);
      var x, a, b := [p[0]], q[..k], q[k + 1..];
      SamePlacesSameEntries(lists, p[1..], a + b);
      AtConcat(lists, x, p[1..]);
      AtConcat(lists, x, b);
      AtConcat(lists, a, x + b);
      AtConcat(lists, a, b);
      assert p == x + p[1..];
      assert q == a + (x + b);
      MoveToFront(At(lists, x), At(lists, a), At(lists, b), At(lists, p[1..]));
    }
  }

  lemma MoveToFront<T>(x: seq<T>, a: seq<T>, b: seq<T>, rest: seq<T>)
    requires multiset(rest) == multiset(a + b)
    ensures multiset(x + rest) == multiset(a + (x + b))
  {
  }

  lemma AtConcat<T>(lists: seq<seq<T>>, a: seq<Place>, b: seq<Place>)
    requires ValidPlaces(lists, a) && ValidPlaces(lists, b)
    ensures ValidPlaces(lists, a + b) && At(lists, a + b) == At(lists, a) + At(lists, b)
  {
  }

  lemma WithoutOne(p: seq<Place>, q: seq<Place>, k: nat)
    requires p != [] && k < |q| && q[k] == p[0] && forall x :: x in p <==> x in q
    requires forall i, j | 0 <= i < j < |p| :: p[i] != p[j]
    requires forall i, j | 0 <= i < j < |q| :: q[i] != q[j]
    ensures forall x :: x in p[1..] <==> x in q[..k] + q[k + 1..]
    ensures forall x | x in q[..k] || x in q[k + 1..] :: x in q
    ensures var rest := q[..k] + q[k + 1..]; forall i, j | 0 <= i < j < |rest| :: rest[i] != rest[j]
  {
    assert p == [p[0]] + p[1..] && q == q[..k] + [p[0]] + q[k + 1..];
    forall x ensures x in p[1..] <==> x in q[..k] + q[k + 1..] {
      assert x in p <==> x == p[0] || x in p[1..];
      assert x in q <==> x == p[0] || x in q[..k] + q[k + 1..];
    }
  }

  // ----- The merged search and query

  /** What one registry answers to a search or a query. */
  datatype Answer<+T> = Answer(offset: int, extensions: seq<T>)

  /** A merged search result. Without registries `Math.min()` makes the offset infinite (`None`). */
  datatype SearchResult<+T> = SearchResult(offset: Option<int>, extensions: seq<T>)

  ghost function FilteredLists<T>(rules: seq<Rule<T>>, answers: seq<(Uri, Answer<T>)>): seq<seq<T>> {
    seq(|answers|, i requires 0 <= i < |answers| => Survivors(rules, answers[i].0, answers[i].1.extensions))
  }

  ghost predicate LeastOffset<T>(answers: seq<(Uri, Answer<T>)>, offset: Option<int>) {
    if answers == [] then offset.None?
    else
      && offset.Some? && (forall i | 0 <= i < |answers| :: offset.value <= answers[i].1.offset)
      && exists i | 0 <= i < |answers| :: offset.value == answers[i].1.offset
  }

  /** The fair interleaving of what survives of the answers, with their least offset. */
  ghost predicate MergedFrom<T>(rules: seq<Rule<T>>, answers: seq<(Uri, Answer<T>)>, r: SearchResult<T>) {
    FairlyInterleaved(FilteredLists(rules, answers), r.extensions) && LeastOffset(answers, r.offset)
  }

  /** `mergedSearch`: the answers of the distinct registries are merged. */
  method MergedSearch<T>(rules: seq<Rule<T>>, registries: seq<Uri>, search: (Uri, nat) -> Answer<T>)
    returns (r: SearchResult<T>)
    ensures MergedFrom(rules, Mapping(registries, search), r)
  {
    var results := CreateMapping(registries, search);
    var filtering: seq<seq<T>> := [];
    for i := 0 to |results|
      invariant |filtering| == i
      invariant forall j | 0 <= j < i :: filtering[j] == Survivors(rules, results[j].0, results[j].1.extensions)
    {
      var survivors := FilterAll(rules, results[i].0, results[i].1.extensions);
      filtering := filtering + [survivors];
    }
    assert filtering == FilteredLists(rules, results);
    var interleaved := Interleave(filtering);
    var offset := MinOffset(results);
    r := SearchResult(offset, interleaved);
  }

  /** `Math.min` of the offsets. */
  method MinOffset<T>(answers: seq<(Uri, Answer<T>)>) returns (offset: Option<int>)
    ensures LeastOffset(answers, offset)
  {
    offset := None;
    for i := 0 to |answers|
      invariant LeastOffset(answers[..i], offset)
    {
      LeastOfOneMore(answers[..i], answers[i], offset);
      assert answers[..i + 1] == answers[..i] + [answers[i]];
      offset := Least(offset, answers[i].1.offset);
    }
    assert answers[..|answers|] == answers;
  }

  function Least(a: Option<int>, b: int): Option<int> {
    if a.Some? && a.value <= b then a else Some(b)
  }

  lemma LeastOfOneMore<T>(answers: seq<(Uri, Answer<T>)>, answer: (Uri, Answer<T>), offset: Option<int>)
    requires LeastOffset(answers, offset)
    ensures LeastOffset(answers + [answer], Least(offset, answer.1.offset))
  {
    var more, o := answers + [answer], Least(offset, answer.1.offset);
    if o == offset {
      var i :| 0 <= i < |answers| && offset.value == answers[i].1.offset;
      assert more[i].1.offset == o.value;
    } else {
      assert more[|answers|].1.offset == o.value;
    }
  }

  /**
   * `search`: the request itself is routed by the rules. The registries of the first matching rule or
   * the default ones are asked and their answers merged; a rule without registries is a full stop, and
   * the empty result has the offset of the request.
   */
  method Search<R, T>(requestRules: seq<Rule<R>>, extensionRules: seq<Rule<T>>, useDefault: seq<Uri>, request: R,
                      offset: Option<int>, search: (Uri, nat) -> Answer<T>) returns (r: SearchResult<T>)
    ensures NoMatch(requestRules, request) ==> MergedFrom(extensionRules, Mapping(useDefault, search), r)
    ensures forall i: nat | FirstMatch(requestRules, request, i) ::
              var use := requestRules[i].use;
              if use == [] then r == SearchResult(Some(if offset.Some? then offset.value else 0), [])
              else MergedFrom(extensionRules, Mapping(use, search), r)
  {
    var rule := RunRules(requestRules, request);
    assert forall i: nat, j: nat ::
        FirstMatch(requestRules, request, i) && FirstMatch(requestRules, request, j) ==> i == j;
    if rule.None? {
      r := MergedSearch(extensionRules, useDefault, search);
    } else if rule.value.use != [] {
      r := MergedSearch(extensionRules, rule.value.use, search);
    } else {
      r := SearchResult(Some(if offset.Some? then offset.value else 0), []);
    }
  }

  lemma FlattenFrom<T>(lists: seq<seq<T>>, i: nat, before: seq<T>)
    requires i < |lists|
    ensures before + Flatten(lists[i..]) == before + lists[i] + Flatten(lists[i + 1..])
  {
    assert lists[i..][1..] == lists[i + 1..];
    assert Flatten(lists[i..]) == lists[i] + Flatten(lists[i + 1..]);
  }

  datatype QueryResult<T> = QueryResult(offset: nat, totalSize: nat, extensions: seq<T>)

  /** `mergeQueryResults`: registry after registry; the total is the length of the merged page. */
  method MergedQuery<T>(rules: seq<Rule<T>>, registries: seq<Uri>, query: (Uri, nat) -> Answer<T>)
    returns (r: QueryResult<T>)
    ensures r.extensions == Flatten(FilteredLists(rules, Mapping(registries, query)))
    ensures r.totalSize == |r.extensions| && r.offset == 0
  {
    var results := CreateMapping(registries, query);
    var extensions: seq<T> := [];
    ghost var lists := FilteredLists(rules, results);
    for i := 0 to |results|
      invariant extensions + Flatten(lists[i..]) == Flatten(lists)
    {
      var survivors := FilterAll(rules, results[i].0, results[i].1.extensions);
      assert survivors == lists[i];
      FlattenFrom(lists, i, extensions);
      extensions := extensions + survivors;
    }
    r := QueryResult(0, |extensions|, extensions);
  }
}
