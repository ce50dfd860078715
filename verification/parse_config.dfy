/**
 * `zed::util::ParseConfig` of `zed/util/parse_config.hpp`: a YAML file flattened into a table
 * from dotted keys to text. The file is read and parsed by yaml-cpp, which is not part of this
 * model: the loader is handed the parsed document as a `ConfigTree.Node`.
 */
module ParseConfig {
  import opened Wrappers
  import opened ConfigTree

  /**
   * `load(prefix, node, output)`: a prefix with a character outside the key set throws;
   * a map hands on the leaves of its children in document order, child `k` under the key
   * `Child(prefix, k)`; any other node is a leaf under `prefix`. `None` is the exception,
   * which abandons the whole walk.
   */
  function Load(nine: bool, prefix: string, n: Node): (r: Option<seq<Leaf>>)
    ensures r.Some? ==> ValidKey(nine, prefix)
    ensures r.Some? ==> forall i :: 0 <= i < |r.value| ==> prefix <= r.value[i].0
    decreases n, 1
  {
    if !ValidKey(nine, prefix) then None
    else match n
      case Map(es) => LoadEntries(nine, prefix, es)
      case _ => Some([(prefix, n)])
  }

  /** The loop of `load` over a map's entries: the first child that throws ends it. */
  function LoadEntries(nine: bool, prefix: string, es: seq<Entry>): (r: Option<seq<Leaf>>)
    ensures r.Some? ==> forall i :: 0 <= i < |r.value| ==> prefix <= r.value[i].0
    decreases es, 0
  {
    if es == [] then Some([])
    else match Load(nine, Child(prefix, es[0].key), es[0].value)
      case None => None
      case Some(first) =>
        match LoadEntries(nine, prefix, es[1..])
        case None => None
        case Some(rest) => Some(first + rest)
  }

  /**
   * `load` throws exactly when some prefix it visits holds a character outside the key set;
   * otherwise it hands on the leaves of the tree.
   */
  lemma {:induction false} LoadIsLeaves(nine: bool, prefix: string, n: Node)
    ensures Load(nine, prefix, n) == if AllKeysValid(nine, prefix, n) then Some(Leaves(prefix, n)) else None
    decreases n, 1
  {
    if ValidKey(nine, prefix) && n.Map? {
      EntriesLoadIsLeaves(nine, prefix, n.entries);
    }
  }

  lemma {:induction false} EntriesLoadIsLeaves(nine: bool, prefix: string, es: seq<Entry>)
    ensures LoadEntries(nine, prefix, es) == if EntriesValid(nine, prefix, es) then Some(LeavesOf(prefix, es)) else None
    decreases es, 0
  {
    if es != [] {
      LoadIsLeaves(nine, Child(prefix, es[0].key), es[0].value);
      EntriesLoadIsLeaves(nine, prefix, es[1..]);
    }
  }

  /** What `load` hands on has valid keys and no maps. */
  lemma LoadedLeaves(nine: bool, prefix: string, n: Node)
    requires Load(nine, prefix, n).Some?
    ensures NoMaps(Load(nine, prefix, n).value)
    ensures forall i :: 0 <= i < |Load(nine, prefix, n).value| ==> ValidKey(nine, Load(nine, prefix, n).value[i].0)
  {
    LoadIsLeaves(nine, prefix, n);
    LeafKeysValid(nine, prefix, n);
  }

  /**
   * As written the key set lacks '9', so a document with the key `worker9` throws; with '9'
   * in the set it loads as the one leaf `worker9`.
   */
  lemma NineThrows()
    ensures Load(false, "", Map([Entry("worker9", Scalar("4"))])) == None
    ensures Load(true, "", Map([Entry("worker9", Scalar("4"))])) == Some([("worker9", Scalar("4"))])
  {
    var es := [Entry("worker9", Scalar("4"))];
    assert !KeyChar(false, "worker9"[6]);
    assert Child("", "worker9") == "worker9";
    assert es[1..] == [];
    assert ValidKey(true, "worker9");
    assert Load(true, "worker9", Scalar("4")) == Some([("worker9", Scalar("4"))]);
    assert LoadEntries(true, "", es) == Some([("worker9", Scalar("4"))] + []);
    assert [("worker9", Scalar("4"))] + [] == [("worker9", Scalar("4"))];
    assert ValidKey(true, "");
    assert Load(true, "", Map(es)) == LoadEntries(true, "", es);
  }

  /**
   * The table after the loop of `load_from_file`: each leaf in turn, unless its key is empty,
   * is `emplace`d under its lowered key with its text, which leaves a key already present alone.
   */
  function Store(d: map<string, string>, leaves: seq<Leaf>): map<string, string>
    requires NoMaps(leaves)
    decreases |leaves|
  {
    if leaves == [] then d
    else
      var last := leaves[|leaves| - 1];
      var r := Store(d, leaves[..|leaves| - 1]);
      if last.0 == [] || ToLower(last.0) in r then r else r[ToLower(last.0) := Text(last.1)]
  }

  /** `emplace` never overwrites: a key already in the table keeps its value. */
  lemma {:induction false} StoreKeeps(d: map<string, string>, leaves: seq<Leaf>, k: string)
    requires NoMaps(leaves) && k in d
    ensures k in Store(d, leaves) && Store(d, leaves)[k] == d[k]
    decreases |leaves|
  {
    if leaves != [] {
      StoreKeeps(d, leaves[..|leaves| - 1], k);
    }
  }

  /** A new key that no leaf names stays out of the table. */
  lemma {:induction false} StoreAbsent(d: map<string, string>, leaves: seq<Leaf>, k: string)
    requires NoMaps(leaves) && k !in d
    requires forall j :: 0 <= j < |leaves| ==> !Names(leaves[j], k)
    ensures k !in Store(d, leaves)
    decreases |leaves|
  {
    if leaves != [] {
      StoreAbsent(d, leaves[..|leaves| - 1], k);
    }
  }

  /** A new key holds the text of the first leaf that names it: later ones are ignored. */
  lemma {:induction false} StoreFirst(d: map<string, string>, leaves: seq<Leaf>, k: string, i: nat)
    requires NoMaps(leaves) && k !in d && i < |leaves| && Names(leaves[i], k)
    requires forall j :: 0 <= j < i ==> !Names(leaves[j], k)
    ensures k in Store(d, leaves) && Store(d, leaves)[k] == Text(leaves[i].1)
    decreases |leaves|
  {
    var p := leaves[..|leaves| - 1];
    if i == |leaves| - 1 {
      StoreAbsent(d, p, k);
    } else {
      StoreFirst(d, p, k, i);
    }
  }

  /** Every key in the table was there before or is named by a leaf. */
  lemma StoreNamed(d: map<string, string>, leaves: seq<Leaf>, k: string)
    requires NoMaps(leaves) && k in Store(d, leaves) && k !in d
    ensures exists j :: 0 <= j < |leaves| && Names(leaves[j], k)
  {
    if forall j :: 0 <= j < |leaves| ==> !Names(leaves[j], k) {
      StoreAbsent(d, leaves, k);
    }
  }

  class ParseConfig {
    var datas: map<string, string>

    /** The empty table the constructor starts from. */
    constructor()
      ensures datas == map[]
    {
      datas := map[];
    }

    /**
     * `ParseConfig(file_name)`: a table loaded from the document, or no object at all when
     * loading throws.
     */
    static method Open(root: Node) returns (pc: ParseConfig?)
      ensures pc == null <==> !AllKeysValid(true, "", root)
      ensures pc != null ==> fresh(pc) && pc.datas == Store(map[], Leaves("", root))
    {
      pc := new ParseConfig();
      var ok := pc.LoadFromFile(root);
      if !ok {
        pc := null;
      }
    }

    /**
     * `load_from_file(file_name)`: when `load` throws the table is left as it was; otherwise
     * every leaf is stored in document order by `Store`.
     */
    method LoadFromFile(root: Node) returns (ok: bool)
      modifies this
      ensures ok <==> AllKeysValid(true, "", root)
      ensures ok ==> datas == Store(old(datas), Leaves("", root))
      ensures !ok ==> datas == old(datas)
    {
      var loaded := Load(true, "", root);
      LoadIsLeaves(true, "", root);
      if loaded.None? {
        return false;
      }
      var nodes := loaded.value;
      var i := 0;
      while i < |nodes|
        invariant 0 <= i <= |nodes|
        invariant datas == Store(old(datas), nodes[..i])
      {
        var key := nodes[i].0;
        assert nodes[..i + 1][..i] == nodes[..i];
        if key != [] {
          var lowered := ToLower(key);
          if lowered !in datas {
            datas := datas[lowered := Text(nodes[i].1)];
          }
        }
        i := i + 1;
      }
      assert nodes[..i] == nodes;
      ok := true;
    }

    /** `get(key, default_value)` for text values: the stored text, or the default when the key is absent. */
    function Get(key: string, default: string): (r: string)
      reads this
      ensures key in datas ==> r == datas[key]
      ensures key !in datas ==> r == default
    {
      if key in datas then datas[key] else default
    }
  }

  /**
   * A key of a freshly loaded table is a valid, non-empty key of the document, and its value is
   * the text of the first leaf under that key.
   */
  lemma LoadedTable(root: Node, k: string)
    requires AllKeysValid(true, "", root) && k in Store(map[], Leaves("", root))
    ensures ValidKey(true, k) && k != []
    ensures exists j :: 0 <= j < |Leaves("", root)| && Leaves("", root)[j].0 == k
  {
    var leaves := Leaves("", root);
    StoreNamed(map[], leaves, k);
    var j :| 0 <= j < |leaves| && Names(leaves[j], k);
    LeafKeysValid(true, "", root);
    LowerValidKey(true, leaves[j].0);
  }
}
