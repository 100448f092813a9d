/** The master's policy about games: a sorted list of names that is either the accepted or the rejected ones. */
module Games {
  import opened Basics

  /** The sign of strcmp. */
  function Compare(a: string, b: string): int {
    if a == "" && b == "" then 0
    else if a == "" then -1
    else if b == "" then 1
    else if a[0] < b[0] then -1
    else if a[0] > b[0] then 1
    else Compare(a[1..], b[1..])
  }

  predicate Less(a: string, b: string) {
    Compare(a, b) < 0
  }

  lemma {:induction false} CompareIsOrder(a: string, b: string)
    ensures Compare(a, b) == 0 <==> a == b
    ensures Compare(b, a) == -Compare(a, b)
  {
    if a != "" && b != "" && a[0] == b[0] {
      CompareIsOrder(a[1..], b[1..]);
      assert a == [a[0]] + a[1..] && b == [b[0]] + b[1..];
    }
  }

  lemma {:induction false} LessTransitive(a: string, b: string, c: string)
    requires Less(a, b) && Less(b, c)
    ensures Less(a, c)
  {
    if a != "" && a[0] == b[0] == c[0] {
      LessTransitive(a[1..], b[1..], c[1..]);
    }
  }

  ghost predicate Sorted(names: seq<string>) {
    forall i, j | 0 <= i < j < |names| :: Less(names[i], names[j])
  }

  datatype Declaration = Declaration(policy: string, games: seq<string>)

  predicate KnownPolicy(policy: string) {
    policy == "accept" || policy == "reject"
  }

  /** The policy as the declarations define it: which games are listed, and whether listed games are rejected. */
  datatype Rules = Rules(names: set<string>, reject: bool) {
    predicate Accepts(game: string) {
      (game in names) != reject
    }
  }

  predicate Compatible(r: Rules, policy: string) {
    KnownPolicy(policy) && (r.names == {} || r.reject == (policy == "reject"))
  }

  /** One declaration: it is applied as a whole or not at all. */
  function Declared(r: Rules, d: Declaration): Rules {
    if Compatible(r, d.policy) then Rules(r.names + (set g | g in d.games), d.policy == "reject") else r
  }

  class GamePolicy {
    var names: seq<string>
    var reject: bool

    ghost predicate Valid()
      reads this
    {
      Sorted(names)
    }

    function Current(): Rules
      reads this
    {
      Rules((set g | g in names), reject)
    }

    constructor ()
      ensures Valid() && Current() == Rules({}, true)
    {
      names, reject := [], true;
    }

    /** Game_Find: where the name is, or where it belongs. */
    method Find(name: string) returns (found: bool, index: nat)
      requires Valid()
      ensures found <==> name in names
      ensures index <= |names| && (found ==> index < |names| && names[index] == name)
      ensures !found ==> forall i | 0 <= i < |names| :: if i < index then Less(names[i], name) else Less(name, names[i])
    {
      var left, right := 0, |names| - 1;
      while left <= right
        invariant 0 <= left <= right + 1 <= |names|
        invariant forall i | 0 <= i < left :: Less(names[i], name)
        invariant forall i | right < i < |names| :: Less(name, names[i])
        decreases right - left
      {
        var middle := (left + right) / 2;
        var diff := Compare(names[middle], name);
        CompareIsOrder(names[middle], name);
        if diff == 0 {
          return true, middle;
        }
        if diff > 0 {
          OrderSpreads(name, middle);
          right := middle - 1;
        } else {
          OrderSpreads(name, middle);
          left := middle + 1;
        }
      }
      assert name !in names by {
        CompareIsOrder(name, name);
      }
      return false, left;
    }

    /** In the sorted list a comparison with one name decides it for all names on one side. */
    lemma OrderSpreads(name: string, middle: nat)
      requires Valid() && middle < |names|
      ensures Less(names[middle], name) ==> forall i | 0 <= i <= middle :: Less(names[i], name)
      ensures Less(name, names[middle]) ==> forall i | middle <= i < |names| :: Less(name, names[i])
    {
      forall i | 0 <= i < middle && Less(names[middle], name)
        ensures Less(names[i], name)
      {
        LessTransitive(names[i], names[middle], name);
      }
      forall i | middle < i < |names| && Less(name, names[middle])
        ensures Less(name, names[i])
      {
        LessTransitive(name, names[middle], names[i]);
      }
    }

    /** One game of a declaration; a name that is listed already is not listed twice. */
    method Add(game: string)
      requires Valid()
      modifies this`names
      ensures Valid() && Current().names == old(Current()).names + {game}
    {
      var found, index := Find(game);
      if !found {
        ghost var before := names;
        names := names[..index] + [game] + names[index..];
        assert forall g :: g in names <==> g in before || g == game;
      }
    }

    /** Game_DeclarePolicy. An empty list is the NULL pointer of the source. */
    method DeclarePolicy(policy: string, games: seq<string>) returns (ok: bool)
      requires Valid()
      modifies this
      ensures Valid() && Current() == Declared(old(Current()), Declaration(policy, games))
      ensures ok == Compatible(old(Current()), policy)
      ensures !ok ==> unchanged(this)
    {
      assert names != [] ==> names[0] in Current().names;
      var newReject;
      if policy == "accept" {
        newReject := false;
      } else if policy == "reject" {
        newReject := true;
      } else {
        return false;
      }
      if names == [] {
        reject := newReject;
      } else if newReject != reject {
        return false;
      }
      var i := 0;
      while i < |games|
        invariant i <= |games| && Valid() && reject == newReject
        invariant Current().names == old(Current()).names + (set g | g in games[..i])
      {
        Add(games[i]);
        assert games[..i + 1] == games[..i] + [games[i]];
        i := i + 1;
      }
      assert games[..i] == games;
      return true;
    }

    /** Game_IsAccepted. */
    method IsAccepted(game: string) returns (accepted: bool)
      requires Valid()
      ensures accepted == Current().Accepts(game)
      ensures accepted <==> if reject then game !in names else game in names
    {
      var found, _ := Find(game);
      accepted := found != reject;
    }
  }

  /** The rules after any sequence of declarations, from the initial ones on. */
  function RulesAfter(ds: seq<Declaration>): Rules {
    if ds == [] then Rules({}, true) else Declared(RulesAfter(ds[..|ds| - 1]), ds[|ds| - 1])
  }

  /** The declaration lists games under the policy that is in force in the end. */
  predicate InForce(d: Declaration, reject: bool) {
    KnownPolicy(d.policy) && reject == (d.policy == "reject")
  }

  predicate Lists(d: Declaration) {
    KnownPolicy(d.policy) && d.games != []
  }

  lemma {:induction false} SomethingListed(ds: seq<Declaration>)
    ensures RulesAfter(ds).names != {} <==> exists i :: 0 <= i < |ds| && Lists(ds[i])
    decreases |ds|
  {
    if ds != [] {
      var before, d := ds[..|ds| - 1], ds[|ds| - 1];
      SomethingListed(before);
      var listed := set g | g in d.games;
      assert d.games != [] ==> d.games[0] in listed;
      assert d.games == [] ==> listed == {};
      assert RulesAfter(ds).names == RulesAfter(before).names + (if Compatible(RulesAfter(before), d.policy) then listed else {});
      assert forall i | 0 <= i < |before| :: ds[i] == before[i];
      if RulesAfter(before).names != {} {
        var i :| 0 <= i < |before| && Lists(before[i]);
        assert Lists(ds[i]);
      }
      assert Lists(d) ==> Lists(ds[|ds| - 1]);
    }
  }

  /** The first declaration that lists a game decides the policy; later ones count if they agree with it. */
  lemma {:induction false} RulesMeaning(ds: seq<Declaration>)
    ensures var r := RulesAfter(ds);
      && (forall g :: g in r.names <==> exists d | d in ds :: InForce(d, r.reject) && g in d.games)
      && (forall i | 0 <= i < |ds| && Lists(ds[i]) && (forall j | 0 <= j < i :: !Lists(ds[j])) :: InForce(ds[i], r.reject))
    decreases |ds|
  {
    if ds != [] {
      var before, d := ds[..|ds| - 1], ds[|ds| - 1];
      RulesMeaning(before);
      SomethingListed(before);
      var q, r := RulesAfter(before), RulesAfter(ds);
      assert forall e | e in before :: e in ds;
      forall g | g in r.names
        ensures exists e | e in ds :: InForce(e, r.reject) && g in e.games
      {
        if g in q.names {
          var e :| e in before && InForce(e, q.reject) && g in e.games;
          assert e in ds;
        } else {
          assert d in ds && InForce(d, r.reject);
        }
      }
      forall e, g | e in ds && InForce(e, r.reject) && g in e.games
        ensures g in r.names
      {
        if e in before {
          var i :| 0 <= i < |before| && before[i] == e;
          assert Lists(before[i]);
        }
      }
      forall i | 0 <= i < |ds| && Lists(ds[i]) && (forall j | 0 <= j < i :: !Lists(ds[j]))
        ensures InForce(ds[i], r.reject)
      {
        if i < |before| {
          assert before[i] == ds[i] && forall j | 0 <= j < i :: !Lists(before[j]);
          assert q.names != {};
        } else {
          assert forall j | 0 <= j < |before| :: before[j] == ds[j];
        }
      }
    }
  }

  ghost predicate FirstToList(ds: seq<Declaration>, i: nat) {
    i < |ds| && Lists(ds[i]) && forall j | 0 <= j < i :: !Lists(ds[j])
  }

  /** The last declaration with a policy says "accept". */
  ghost predicate EndsOnAccept(ds: seq<Declaration>) {
    exists i | 0 <= i < |ds| :: ds[i].policy == "accept" && forall j | i < j < |ds| :: !KnownPolicy(ds[j].policy)
  }

  lemma {:induction false} NothingListed(ds: seq<Declaration>)
    requires forall i | 0 <= i < |ds| :: !Lists(ds[i])
    ensures RulesAfter(ds).names == {} && (RulesAfter(ds).reject <==> !EndsOnAccept(ds))
    decreases |ds|
  {
    if ds != [] {
      var before, d := ds[..|ds| - 1], ds[|ds| - 1];
      NothingListed(before);
      assert !Lists(d) && (KnownPolicy(d.policy) ==> (set g | g in d.games) == {});
      if KnownPolicy(d.policy) {
        assert EndsOnAccept(ds) <==> d.policy == "accept";
      } else {
        if i :| 0 <= i < |before| && before[i].policy == "accept" && forall j | i < j < |before| :: !KnownPolicy(before[j].policy) {
          assert ds[i].policy == "accept" && forall j | i < j < |ds| :: !KnownPolicy(ds[j].policy);
        }
        if i :| 0 <= i < |ds| && ds[i].policy == "accept" && forall j | i < j < |ds| :: !KnownPolicy(ds[j].policy) {
          assert before[i].policy == "accept" && forall j | i < j < |before| :: !KnownPolicy(before[j].policy);
        }
      }
    }
  }

  /** Which games are accepted after any sequence of declarations. The first one that lists a game decides: under "accept"
      the games that any "accept" declaration lists, under "reject" all but those that any "reject" declaration lists. If
      none lists a game, all are accepted, unless the last policy named is "accept"; then none is. */
  lemma AcceptanceMeaning(ds: seq<Declaration>, game: string)
    ensures forall i: nat | FirstToList(ds, i) ::
      RulesAfter(ds).Accepts(game) <==>
        if ds[i].policy == "accept" then exists d | d in ds :: d.policy == "accept" && game in d.games
        else forall d | d in ds && d.policy == "reject" :: game !in d.games
    ensures (forall i: nat :: !FirstToList(ds, i)) ==> (RulesAfter(ds).Accepts(game) <==> !EndsOnAccept(ds))
    ensures ds == [] ==> RulesAfter(ds).Accepts(game)
  {
    RulesMeaning(ds);
    if !exists i: nat :: FirstToList(ds, i) {
      NoneIsFirst(ds, |ds|);
      NothingListed(ds);
    }
  }

  lemma {:induction false} NoneIsFirst(ds: seq<Declaration>, n: nat)
    requires n <= |ds| && forall i: nat :: !FirstToList(ds, i)
    ensures forall i | 0 <= i < n :: !Lists(ds[i])
  {
    if n > 0 {
      NoneIsFirst(ds, n - 1);
      assert !FirstToList(ds, n - 1);
    }
  }
}
