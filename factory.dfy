/**
 * ModuleFactory: a process-wide registry from a module type name to the
 * function that creates a module of that type from an instance name. The
 * registry is an ordered map, so its names are listed in ascending
 * lexicographic order.
 */
module Factory {
  import opened Common
  import opened ModuleDispatch

  /** A creation function: builds a module (or null) from an instance name. */
  type Creator = string -> Module?

  /**
   * Lexicographic order on strings, character by character; a proper prefix
   * comes first. std::string keys compare as unsigned bytes; on UTF-8 names
   * that is the same order as comparing code points, which this is.
   */
  predicate LexLess(a: string, b: string)
  {
    if a == [] then b != []
    else if b == [] then false
    else a[0] < b[0] || (a[0] == b[0] && LexLess(a[1..], b[1..]))
  }

  lemma {:induction false} LexIrreflexive(a: string)
    ensures !LexLess(a, a)
  {
    if a != [] {
      LexIrreflexive(a[1..]);
    }
  }

  lemma {:induction false} LexTransitive(a: string, b: string, c: string)
    requires LexLess(a, b) && LexLess(b, c)
    ensures LexLess(a, c)
  {
    if a != [] && a[0] == b[0] && b[0] == c[0] {
      LexTransitive(a[1..], b[1..], c[1..]);
    }
  }

  /** Any two different strings are ordered one way, and only one way. */
  lemma {:induction false} LexTotal(a: string, b: string)
    ensures a != b <==> LexLess(a, b) || LexLess(b, a)
    ensures !(LexLess(a, b) && LexLess(b, a))
  {
    if a != [] && b != [] && a[0] == b[0] {
      LexTotal(a[1..], b[1..]);
      if a[1..] == b[1..] {
        assert a == [a[0]] + a[1..] && b == [b[0]] + b[1..];
      }
    } else if a == [] || b == [] {
    }
  }

  /** Every non-empty finite set of names has a least one. */
  lemma {:induction false} LeastExists(s: set<string>)
    requires s != {}
    ensures exists m :: m in s && forall k :: k in s && k != m ==> LexLess(m, k)
    decreases |s|
  {
    var x :| x in s;
    if s - {x} == {} {
      assert s == (s - {x}) + {x} == {x};
    } else {
      LeastExists(s - {x});
      var m :| m in s - {x} && forall k :: k in s - {x} && k != m ==> LexLess(m, k);
      LexTotal(m, x);
      if LexLess(m, x) {
        assert forall k :: k in s && k != m ==> LexLess(m, k);
      } else {
        forall k | k in s && k != x
          ensures LexLess(x, k)
        {
          if k != m {
            LexTransitive(x, m, k);
          }
        }
      }
    }
  }

  /** Strictly ascending: every earlier name is lexicographically before every later one. */
  ghost predicate Ascending(names: seq<string>)
  {
    forall i, j :: 0 <= i < j < |names| ==> LexLess(names[i], names[j])
  }

  lemma AscendingDistinct(names: seq<string>)
    requires Ascending(names)
    ensures Distinct(names)
  {
    forall i, j | 0 <= i < j < |names|
      ensures names[i] != names[j]
    {
      LexIrreflexive(names[i]);
    }
  }

  /**
   * GetRegistered's loop state: the names listed so far, ascending, and the
   * names still to list, all after them, together make up keys.
   */
  ghost predicate ListedSoFar(keys: set<string>, names: seq<string>, remaining: set<string>)
  {
    && (forall k :: k in keys <==> k in names || k in remaining)
    && (forall k :: k in names ==> k !in remaining)
    && Ascending(names)
    && (forall i, k :: 0 <= i < |names| && k in remaining ==> LexLess(names[i], k))
  }

  /** Listing the least remaining name next keeps the loop state. */
  lemma ListLeast(keys: set<string>, names: seq<string>, remaining: set<string>, least: string)
    requires ListedSoFar(keys, names, remaining)
    requires least in remaining && forall k :: k in remaining && k != least ==> LexLess(least, k)
    ensures ListedSoFar(keys, names + [least], remaining - {least})
  {
    var names' := names + [least];
    forall i, j | 0 <= i < j < |names'|
      ensures LexLess(names'[i], names'[j])
    {
      if j < |names| {
        assert names'[i] == names[i] && names'[j] == names[j];
      } else {
        assert names'[i] == names[i] && names'[j] == least;
      }
    }
  }

  /** One call to Register: a type name with a creator that may be null. */
  datatype Registration = Registration(typeName: string, create: Option<Creator>)

  /** The registry after a run of Register calls, applied in order. */
  function Registrations(m: map<string, Creator>, regs: seq<Registration>): (r: map<string, Creator>)
    ensures forall k :: k in m ==> k in r && r[k] == m[k]
    decreases |regs|
  {
    if regs == [] then m
    else
      var r := regs[0];
      var m' := if r.create.Some? && r.typeName !in m then m[r.typeName := r.create.value] else m;
      Registrations(m', regs[1..])
  }

  /** Whether regs holds a non-null registration of name. */
  predicate Offered(regs: seq<Registration>, name: string)
  {
    exists i :: 0 <= i < |regs| && regs[i].typeName == name && regs[i].create.Some?
  }

  /** A non-null offer in regs is the head's or one in the tail. */
  lemma OfferedSplit(regs: seq<Registration>, k: string)
    requires regs != []
    ensures Offered(regs, k) <==> (regs[0].typeName == k && regs[0].create.Some?) || Offered(regs[1..], k)
  {
    var tail := regs[1..];
    if Offered(tail, k) {
      var i :| 0 <= i < |tail| && tail[i].typeName == k && tail[i].create.Some?;
      assert regs[i + 1] == tail[i];
    }
    if Offered(regs, k) && !(regs[0].typeName == k && regs[0].create.Some?) {
      var i :| 0 <= i < |regs| && regs[i].typeName == k && regs[i].create.Some?;
      assert i > 0 && tail[i - 1] == regs[i];
    }
  }

  /**
   * The names a run of registrations leaves: those held before and those
   * some non-null call offered, and no others.
   */
  lemma {:induction false} RegistrationsKeep(m: map<string, Creator>, regs: seq<Registration>)
    ensures forall k :: k in Registrations(m, regs) <==> k in m || Offered(regs, k)
    decreases |regs|
  {
    if regs != [] {
      var r := regs[0];
      var m' := if r.create.Some? && r.typeName !in m then m[r.typeName := r.create.value] else m;
      RegistrationsKeep(m', regs[1..]);
      forall k {
        OfferedSplit(regs, k);
      }
    }
  }

  /**
   * The first registration of a name wins: a name absent at the start is
   * bound to the creator of the first non-null call that offers it.
   */
  lemma {:induction false} FirstRegistrationWins(m: map<string, Creator>, regs: seq<Registration>, i: nat)
    requires i < |regs| && regs[i].create.Some? && regs[i].typeName !in m
    requires forall j :: 0 <= j < i && regs[j].typeName == regs[i].typeName ==> regs[j].create.None?
    ensures var r := Registrations(m, regs);
      regs[i].typeName in r && r[regs[i].typeName] == regs[i].create.value
    decreases |regs|
  {
    var r := regs[0];
    var m' := if r.create.Some? && r.typeName !in m then m[r.typeName := r.create.value] else m;
    var tail := regs[1..];
    if i > 0 {
      assert tail[i - 1] == regs[i];
      assert regs[i].typeName !in m';
      forall j | 0 <= j < i - 1 && tail[j].typeName == tail[i - 1].typeName
        ensures tail[j].create.None?
      {
        assert tail[j] == regs[j + 1];
      }
      FirstRegistrationWins(m', tail, i - 1);
    }
  }

  class ModuleFactory {
    /** map_: type name to creator, ordered by name. */
    var registry: map<string, Creator>

    /** An empty registry. */
    constructor ()
      ensures registry == map[]
    {
      registry := map[];
    }

    /**
     * Register: a null creator is refused; otherwise the name is inserted
     * only if absent, and the result says whether it was inserted.
     */
    method Register(typeName: string, create: Option<Creator>) returns (ok: bool)
      modifies this
      ensures ok <==> create.Some? && typeName !in old(registry)
      ensures registry == Registrations(old(registry), [Registration(typeName, create)])
      ensures ok ==> registry == old(registry)[typeName := create.value]
      ensures !ok ==> registry == old(registry)
    {
      if create.None? {
        return false;
      }
      if typeName in registry {
        ok := false;
      } else {
        registry := registry[typeName := create.value];
        ok := true;
      }
    }

    /**
     * Create: null for an unregistered type name, with no creator called;
     * otherwise the registered creator applied to the instance name.
     */
    method Create(typeName: string, name: string) returns (m: Module?)
      ensures typeName !in registry ==> m == null
      ensures typeName in registry ==> m == registry[typeName](name)
    {
      if typeName !in registry {
        return null;
      }
      m := registry[typeName](name);
    }

    /**
     * GetRegistered: every registered type name exactly once, in ascending
     * order, as the ordered map iterates them. The registry is not changed.
     */
    method GetRegistered() returns (names: seq<string>)
      ensures Ascending(names) && Distinct(names)
      ensures forall k :: k in names <==> k in registry
    {
      names := [];
      var remaining := registry.Keys;
      while remaining != {}
        invariant ListedSoFar(registry.Keys, names, remaining)
        decreases |remaining|
      {
        LeastExists(remaining);
        var least :| least in remaining && forall k :: k in remaining && k != least ==> LexLess(least, k);
        ListLeast(registry.Keys, names, remaining, least);
        names := names + [least];
        remaining := remaining - {least};
      }
      AscendingDistinct(names);
    }
  }

  /** The static factory_ member of ModuleFactory, null until first use. */
  class FactorySlot {
    var factory: ModuleFactory?

    constructor ()
      ensures factory == null
    {
      factory := null;
    }

    /**
     * Instance: the factory is created on the first call, with an empty
     * registry, and every later call returns that same object.
     */
    method Instance() returns (f: ModuleFactory)
      modifies this
      ensures factory == f
      ensures old(factory) != null ==> f == old(factory)
      ensures old(factory) == null ==> fresh(f) && f.registry == map[]
    {
      if factory == null {
        factory := new ModuleFactory();
      }
      f := factory;
    }
  }
}
