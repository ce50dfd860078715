/**
 * `zed::config` of `src/config/config.hpp`: a registry of configuration values keyed by dotted
 * names. Each name has an updater holding its current text and the variables listening to it;
 * loading a YAML document sets the updaters, and every update is pushed to the listeners.
 * yaml-cpp, which reads and parses the file, is not part of this model: the loader is handed the
 * parsed document as a `ConfigTree.Node`. Variables hold text: `boost::lexical_cast<T>` is
 * modelled for `T = std::string`, where it is the identity.
 */
module Configurator {
  import opened ConfigTree
  import ParseConfig

  /**
   * `LoadYamlNodes(prefix, node, output)`: like `ParseConfig::load`, but a prefix with a
   * character outside the key set is reported and its whole subtree skipped, and the walk goes on.
   */
  function YamlNodes(nine: bool, prefix: string, n: Node): (r: seq<Leaf>)
    ensures NoMaps(r)
    decreases n, 1
  {
    if !ValidKey(nine, prefix) then []
    else match n
      case Map(es) => YamlEntries(nine, prefix, es)
      case _ => [(prefix, n)]
  }

  /** The loop of `LoadYamlNodes` over a map's entries. */
  function YamlEntries(nine: bool, prefix: string, es: seq<Entry>): (r: seq<Leaf>)
    ensures NoMaps(r)
    decreases es, 0
  {
    if es == [] then []
    else YamlNodes(nine, Child(prefix, es[0].key), es[0].value) + YamlEntries(nine, prefix, es[1..])
  }

  /** The leaves whose keys are valid, in order. */
  function ValidLeaves(nine: bool, leaves: seq<Leaf>): (r: seq<Leaf>)
    ensures forall i :: 0 <= i < |r| ==> ValidKey(nine, r[i].0)
  {
    if leaves == [] then []
    else (if ValidKey(nine, leaves[0].0) then [leaves[0]] else []) + ValidLeaves(nine, leaves[1..])
  }

  lemma {:induction false} ValidLeavesAppend(nine: bool, a: seq<Leaf>, b: seq<Leaf>)
    ensures ValidLeaves(nine, a + b) == ValidLeaves(nine, a) + ValidLeaves(nine, b)
  {
    if a != [] {
      assert (a + b)[1..] == a[1..] + b;
      ValidLeavesAppend(nine, a[1..], b);
    } else {
      assert a + b == b;
    }
  }

  /** Every key of the leaves under `prefix` starts with `prefix`. */
  lemma {:induction false} LeavesExtend(prefix: string, n: Node)
    ensures forall i :: 0 <= i < |Leaves(prefix, n)| ==> prefix <= Leaves(prefix, n)[i].0
    decreases n, 1
  {
    if n.Map? {
      EntriesExtend(prefix, n.entries);
    }
  }

  lemma {:induction false} EntriesExtend(prefix: string, es: seq<Entry>)
    ensures forall i :: 0 <= i < |LeavesOf(prefix, es)| ==> prefix <= LeavesOf(prefix, es)[i].0
    decreases es, 0
  {
    if es != [] {
      var c := Child(prefix, es[0].key);
      assert prefix <= c;
      LeavesExtend(c, es[0].value);
      EntriesExtend(prefix, es[1..]);
    }
  }

  /** A key that starts with an invalid prefix is itself invalid. */
  lemma InvalidExtends(nine: bool, p: string, q: string)
    requires !ValidKey(nine, p) && p <= q
    ensures !ValidKey(nine, q)
  {
    var i :| 0 <= i < |p| && !KeyChar(nine, p[i]);
    assert q[i] == p[i];
  }

  /** Under an invalid prefix no leaf has a valid key. */
  lemma NoValidUnder(nine: bool, prefix: string, n: Node)
    requires !ValidKey(nine, prefix)
    ensures ValidLeaves(nine, Leaves(prefix, n)) == []
  {
    var leaves := Leaves(prefix, n);
    LeavesExtend(prefix, n);
    forall i | 0 <= i < |leaves| ensures !ValidKey(nine, leaves[i].0) {
      InvalidExtends(nine, prefix, leaves[i].0);
    }
    NoneValid(nine, leaves);
  }

  lemma {:induction false} NoneValid(nine: bool, leaves: seq<Leaf>)
    requires forall i :: 0 <= i < |leaves| ==> !ValidKey(nine, leaves[i].0)
    ensures ValidLeaves(nine, leaves) == []
  {
    if leaves != [] {
      NoneValid(nine, leaves[1..]);
    }
  }

  /**
   * Skipping the subtree under each invalid prefix keeps exactly the leaves whose keys are
   * valid: a key starts with every prefix above it, and a '.' is a valid key character.
   */
  lemma {:induction false} YamlNodesFilter(nine: bool, prefix: string, n: Node)
    ensures YamlNodes(nine, prefix, n) == ValidLeaves(nine, Leaves(prefix, n))
    decreases n, 1
  {
    if !ValidKey(nine, prefix) {
      NoValidUnder(nine, prefix, n);
    } else if n.Map? {
      YamlEntriesFilter(nine, prefix, n.entries);
    } else {
      assert ValidLeaves(nine, [(prefix, n)]) == [(prefix, n)] + ValidLeaves(nine, []);
    }
  }

  lemma {:induction false} YamlEntriesFilter(nine: bool, prefix: string, es: seq<Entry>)
    requires ValidKey(nine, prefix)
    ensures YamlEntries(nine, prefix, es) == ValidLeaves(nine, LeavesOf(prefix, es))
    decreases es, 0
  {
    if es != [] {
      var c := Child(prefix, es[0].key);
      YamlNodesFilter(nine, c, es[0].value);
      YamlEntriesFilter(nine, prefix, es[1..]);
      ValidLeavesAppend(nine, Leaves(c, es[0].value), LeavesOf(prefix, es[1..]));
    }
  }

  /** When every prefix is valid nothing is skipped: the walk hands on every leaf. */
  lemma {:induction false} YamlNodesAllValid(nine: bool, prefix: string, n: Node)
    requires AllKeysValid(nine, prefix, n)
    ensures YamlNodes(nine, prefix, n) == Leaves(prefix, n)
    decreases n, 1
  {
    if n.Map? {
      YamlEntriesAllValid(nine, prefix, n.entries);
    }
  }

  lemma {:induction false} YamlEntriesAllValid(nine: bool, prefix: string, es: seq<Entry>)
    requires EntriesValid(nine, prefix, es)
    ensures YamlEntries(nine, prefix, es) == LeavesOf(prefix, es)
    decreases es, 0
  {
    if es != [] {
      YamlNodesAllValid(nine, Child(prefix, es[0].key), es[0].value);
      YamlEntriesAllValid(nine, prefix, es[1..]);
    }
  }

  /**
   * As written the key set lacks '9', so `worker9` is reported and skipped while its sibling
   * `workers` is kept; with '9' in the set both are kept.
   */
  lemma NineSkipped()
    ensures YamlNodes(false, "", Map([Entry("worker9", Scalar("4")), Entry("workers", Scalar("2"))]))
      == [("workers", Scalar("2"))]
    ensures YamlNodes(true, "", Map([Entry("worker9", Scalar("4")), Entry("workers", Scalar("2"))]))
      == [("worker9", Scalar("4")), ("workers", Scalar("2"))]
  {
    var es := [Entry("worker9", Scalar("4")), Entry("workers", Scalar("2"))];
    assert !KeyChar(false, "worker9"[6]);
    assert ValidKey(false, "workers") && ValidKey(true, "worker9") && ValidKey(true, "");
    assert Child("", "worker9") == "worker9" && Child("", "workers") == "workers";
    assert es[1..] == [Entry("workers", Scalar("2"))] && es[1..][1..] == [];
    assert YamlEntries(false, "", es[1..]) == [("workers", Scalar("2"))] + [];
    assert YamlEntries(true, "", es[1..]) == [("workers", Scalar("2"))] + [];
  }

  /** The text each leaf carries, key by lowered key, the last leaf under a key winning. */
  function Assign(m: map<string, string>, leaves: seq<Leaf>): map<string, string>
    requires NoMaps(leaves)
    decreases |leaves|
  {
    if leaves == [] then m
    else
      var last := leaves[|leaves| - 1];
      var r := Assign(m, leaves[..|leaves| - 1]);
      if last.0 == [] then r else r[ToLower(last.0) := Text(last.1)]
  }

  /** A key no leaf names keeps what it had, present or absent. */
  lemma {:induction false} AssignUnnamed(m: map<string, string>, leaves: seq<Leaf>, k: string)
    requires NoMaps(leaves)
    requires forall j :: 0 <= j < |leaves| ==> !Names(leaves[j], k)
    ensures (k in Assign(m, leaves) <==> k in m) && (k in m ==> Assign(m, leaves)[k] == m[k])
    decreases |leaves|
  {
    if leaves != [] {
      AssignUnnamed(m, leaves[..|leaves| - 1], k);
    }
  }

  /** A key holds the text of the last leaf that names it: `set_value` overwrites. */
  lemma {:induction false} AssignLast(m: map<string, string>, leaves: seq<Leaf>, k: string, i: nat)
    requires NoMaps(leaves) && i < |leaves| && Names(leaves[i], k)
    requires forall j :: i < j < |leaves| ==> !Names(leaves[j], k)
    ensures k in Assign(m, leaves) && Assign(m, leaves)[k] == Text(leaves[i].1)
    decreases |leaves|
  {
    if i < |leaves| - 1 {
      AssignLast(m, leaves[..|leaves| - 1], k, i);
    }
  }

  /** The document `{a.b: 1, a: {b: 2}}` has the leaf `a.b` twice. */
  lemma RepeatedLeaf()
    ensures Leaves("", Map([Entry("a.b", Scalar("1")), Entry("a", Map([Entry("b", Scalar("2"))]))]))
      == [("a.b", Scalar("1")), ("a.b", Scalar("2"))]
  {
    assert Child("", "a.b") == "a.b" && Child("", "a") == "a" && Child("a", "b") == "a.b";
    var inner := [Entry("b", Scalar("2"))];
    var es := [Entry("a.b", Scalar("1")), Entry("a", Map(inner))];
    assert inner[1..] == [] && es[1..] == [Entry("a", Map(inner))] && es[1..][1..] == [];
    assert LeavesOf("a", inner) == [("a.b", Scalar("2"))] + [];
    assert LeavesOf("", es[1..]) == [("a.b", Scalar("2"))] + [];
  }

  /**
   * The two loaders disagree on a repeated key: `ParseConfig` keeps the first text, the
   * configurator the last.
   */
  lemma RepeatedKey()
    ensures ParseConfig.Store(map[], [("a.b", Scalar("1")), ("a.b", Scalar("2"))]) == map["a.b" := "1"]
    ensures Assign(map[], [("a.b", Scalar("1")), ("a.b", Scalar("2"))]) == map["a.b" := "2"]
  {
    var leaves := [("a.b", Scalar("1")), ("a.b", Scalar("2"))];
    assert ToLower("a.b") == "a.b";
    assert leaves[..1] == [("a.b", Scalar("1"))] && leaves[..1][..0] == [];
  }

  /**
   * `ConfigVariable<T>`: a value and a weak reference to the updater it listens to. The
   * destructor's unregistering is `Release`.
   */
  class ConfigVariable {
    var value: string
    var updater: ConfigUpdater?

    /** `ConfigVariable(value)`: the given value, no updater yet. */
    constructor(v: string)
      ensures value == v && updater == null
    {
      value := v;
      updater := null;
    }

    /** `set_value(value)`: an equal value leaves the variable untouched; any other is assigned. */
    method SetValue(v: string)
      modifies this
      ensures value == v && updater == old(updater)
      ensures old(value) == v ==> unchanged(this)
    {
      if value == v {
        return;
      }
      value := v;
    }

    /** `from_string(str)`: the text converted to the value type, the text itself for strings. */
    method FromString(str: string)
      modifies this
      ensures value == str && updater == old(updater)
      ensures old(value) == str ==> unchanged(this)
    {
      SetValue(str);
    }

    /** `set_updater(updater)`. */
    method SetUpdater(u: ConfigUpdater?)
      modifies this
      ensures updater == u && value == old(value)
    {
      updater := u;
    }

    /** `~ConfigVariable()`: a variable with an updater leaves its listeners; nothing else changes. */
    method Release()
      modifies updater
      ensures updater != null ==> updater.variables == old(updater.variables) - {this}
      ensures updater != null ==> updater.value == old(updater.value)
    {
      if updater != null {
        updater.Erase(this);
      }
    }
  }

  /** `ConfigUpdater`: the current text under one name and the variables listening to it. */
  class ConfigUpdater {
    var value: string
    var variables: set<ConfigVariable>
    /** The name the configurator keeps this updater under. */
    ghost const name: string

    /** A new updater for `name`: no value, no listener. */
    constructor(ghost name: string)
      ensures value == "" && variables == {} && this.name == name
    {
      value := "";
      variables := {};
      this.name := name;
    }

    /** `listen(var)`: the variable joins the listeners. */
    method Listen(v: ConfigVariable)
      modifies this
      ensures variables == old(variables) + {v} && value == old(value)
    {
      variables := variables + {v};
    }

    /** `erase(var)`: the variable leaves the listeners. */
    method Erase(v: ConfigVariable)
      modifies this
      ensures variables == old(variables) - {v} && value == old(value)
    {
      variables := variables - {v};
    }

    /**
     * `set_value(value)`: stores the text, then hands it to every listener's `from_string`; the
     * listeners keep their updater, and no other variable changes.
     */
    method SetValue(s: string)
      modifies this, variables
      ensures value == s && variables == old(variables)
      ensures forall v :: v in variables ==> v.value == s && v.updater == old(v.updater)
    {
      value := s;
      var rest := variables;
      while rest != {}
        invariant rest <= variables && value == s && variables == old(variables)
        invariant forall v :: v in variables && v !in rest ==> v.value == s
        invariant forall v :: v in variables ==> v.updater == old(v.updater)
        decreases rest
      {
        var v :| v in rest;
        v.FromString(value);
        rest := rest - {v};
      }
    }

    /** `has_value()`: whether the text is not empty. */
    function HasValue(): (r: bool)
      reads this
      ensures r <==> value != ""
    {
      value != ""
    }
  }

  /** `Configurator`: the updaters by name. */
  class Configurator {
    var updaters: map<string, ConfigUpdater>
    /** The variables registered through `update_variable`: every listener is one of them. */
    ghost var listeners: set<ConfigVariable>

    /** The current text under each name. */
    function Values(): map<string, string>
      reads this, updaters.Values
    {
      map k | k in updaters :: updaters[k].value
    }

    /**
     * Each name has its own updater; a listener refers back to the updater it listens to and,
     * once that updater has a value, holds it.
     */
    ghost predicate Valid()
      reads this, updaters.Values, listeners
    {
      (forall k :: k in updaters ==> updaters[k].name == k && updaters[k].variables <= listeners)
      && (forall k, v :: k in updaters && v in updaters[k].variables ==>
            v.updater == updaters[k] && (updaters[k].value != "" ==> v.value == updaters[k].value))
    }

    /**
     * `Configurator()`: loads the configuration file into an empty registry, so every updater
     * is new and has no listener.
     */
    constructor(root: Node)
      ensures Valid() && listeners == {}
      ensures Values() == Assign(map[], YamlNodes(true, "", root))
      ensures forall k :: k in updaters ==> fresh(updaters[k]) && updaters[k].variables == {}
    {
      updaters := map[];
      listeners := {};
      new;
      assert Values() == map[];
      Load(root);
    }

    /**
     * The updater under `name`, created with no value and no listener when missing
     * (`m_updaters.emplace(name, std::make_shared<ConfigUpdater>())`); nothing else changes.
     */
    method UpdaterFor(name: string) returns (u: ConfigUpdater)
      requires Valid()
      modifies this
      ensures Valid() && name in updaters && u == updaters[name]
      ensures name in old(updaters) ==> updaters == old(updaters)
      ensures name !in old(updaters) ==>
        fresh(u) && u.value == "" && u.variables == {} && updaters == old(updaters)[name := u]
      ensures Values() == if name in old(updaters) then old(Values()) else old(Values())[name := ""]
      ensures listeners == old(listeners)
    {
      if name !in updaters {
        u := new ConfigUpdater(name);
        updaters := updaters[name := u];
        assert forall k :: k in old(updaters) ==> updaters[k] != u;
      }
      u := updaters[name];
    }

    /**
     * `updater->set_value(text)` on the updater under `name`: it and its listeners take the
     * text; no other updater or variable changes, since a listener belongs to one updater.
     */
    method Push(name: string, text: string)
      requires Valid() && name in updaters
      modifies updaters[name], updaters[name].variables
      ensures Valid() && Values() == old(Values())[name := text]
      ensures forall k :: k in updaters ==> updaters[k].variables == old(updaters[k].variables)
    {
      var u := updaters[name];
      u.SetValue(text);
      forall k | k in updaters && k != name
        ensures updaters[k] != u && updaters[k].value == old(updaters[k].value)
        ensures forall v :: v in updaters[k].variables ==> v !in u.variables && unchanged(v)
      {
        forall v | v in updaters[k].variables
          ensures v !in u.variables && unchanged(v)
        {
          assert v.updater == updaters[k];
        }
      }
    }

    /**
     * One step of `load`: the updater under `name`, created when missing, takes the text, and
     * so do its listeners.
     */
    method SetNamed(name: string, text: string)
      requires Valid()
      modifies this, updaters.Values, listeners
      ensures Valid() && Values() == old(Values())[name := text] && listeners == old(listeners)
      ensures forall k :: k in old(updaters) ==> k in updaters && updaters[k] == old(updaters[k])
      ensures forall k :: k in updaters ==>
        if k in old(updaters) then updaters[k].variables == old(updaters[k].variables)
        else fresh(updaters[k]) && updaters[k].variables == {}
    {
      var u := UpdaterFor(name);
      ghost var values := Values();
      Push(name, text);
      assert values[name := text] == old(Values())[name := text];
    }

    /**
     * `load(file_name)`: every leaf `LoadYamlNodes` hands on, unless its key is empty, sets the
     * updater under its lowered key, which is created when missing; its listeners receive the
     * text. Existing updaters and their listeners stay registered.
     */
    method Load(root: Node)
      requires Valid()
      modifies this, updaters.Values, listeners
      ensures Valid() && listeners == old(listeners)
      ensures Values() == Assign(old(Values()), YamlNodes(true, "", root))
      ensures forall k :: k in old(updaters) ==> k in updaters && updaters[k] == old(updaters[k])
      ensures forall k :: k in updaters ==>
        if k in old(updaters) then updaters[k].variables == old(updaters[k].variables)
        else fresh(updaters[k]) && updaters[k].variables == {}
    {
      var nodes := YamlNodes(true, "", root);
      var i := 0;
      while i < |nodes|
        invariant 0 <= i <= |nodes|
        invariant Valid()
        invariant Values() == Assign(old(Values()), nodes[..i]) && listeners == old(listeners)
        invariant forall k :: k in old(updaters) ==> k in updaters && updaters[k] == old(updaters[k])
        invariant forall k :: k in updaters ==>
          if k in old(updaters) then updaters[k].variables == old(updaters[k].variables)
          else fresh(updaters[k]) && updaters[k].variables == {}
      {
        var key := nodes[i].0;
        assert nodes[..i + 1][..i] == nodes[..i];
        if key != [] {
          SetNamed(ToLower(key), Text(nodes[i].1));
        }
        i := i + 1;
      }
      assert nodes[..i] == nodes;
    }

    /**
     * `update_variable(name, var)`: the updater under `name`, created when missing, gets the
     * variable as a listener and the variable refers back to it; when the updater has a value
     * the variable takes it. No other updater, and no other variable, changes.
     */
    method UpdateVariable(name: string, v: ConfigVariable)
      requires Valid() && v !in listeners
      modifies this, updaters.Values, v
      ensures Valid() && listeners == old(listeners) + {v}
      ensures name in updaters && v.updater == updaters[name]
      ensures name in old(updaters) ==> updaters == old(updaters)
      ensures name !in old(updaters) ==> fresh(updaters[name]) && updaters == old(updaters)[name := updaters[name]]
      ensures Values() == if name in old(updaters) then old(Values()) else old(Values())[name := ""]
      ensures updaters[name].variables == (if name in old(updaters) then old(updaters[name].variables) else {}) + {v}
      ensures forall k :: k in updaters && k != name ==> updaters[k].variables == old(updaters[k].variables)
      ensures v.value == if name in old(updaters) && old(updaters[name].value) != "" then old(updaters[name].value) else old(v.value)
    {
      var u := UpdaterFor(name);
      Register(name, v);
    }

    /** The second half of `update_variable`, once the updater exists. */
    method Register(name: string, v: ConfigVariable)
      requires Valid() && v !in listeners && name in updaters
      modifies this`listeners, updaters[name], v
      ensures Valid() && listeners == old(listeners) + {v} && v.updater == updaters[name]
      ensures updaters[name].variables == old(updaters[name].variables) + {v}
      ensures updaters[name].value == old(updaters[name].value)
      ensures v.value == if updaters[name].value != "" then updaters[name].value else old(v.value)
    {
      var u := updaters[name];
      v.SetUpdater(u);
      u.Listen(v);
      listeners := listeners + {v};
      if u.HasValue() {
        v.FromString(u.value);
      }
      forall k | k in updaters && k != name
        ensures updaters[k] != u && v !in updaters[k].variables
      {
      }
    }

    /**
     * `MakeVariable(name, default_value)`: a new variable holding the default, registered under
     * `name`; it starts with the updater's value instead when that is not empty.
     */
    method MakeVariable(name: string, default: string) returns (v: ConfigVariable)
      requires Valid()
      modifies this, updaters.Values
      ensures fresh(v) && Valid() && listeners == old(listeners) + {v}
      ensures name in updaters && v in updaters[name].variables && v.updater == updaters[name]
      ensures v.value == if name in old(updaters) && old(updaters[name].value) != "" then old(updaters[name].value) else default
      ensures Values() == if name in old(updaters) then old(Values()) else old(Values())[name := ""]
    {
      v := new ConfigVariable(default);
      UpdateVariable(name, v);
    }
  }
}
