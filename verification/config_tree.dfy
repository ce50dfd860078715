/**
 * The YAML document both configuration loaders walk, as a tree: a scalar with its text, a map
 * with its entries in document order, or any other node (a sequence or null) with the text the
 * YAML emitter writes for it. Parsing and emitting YAML are not part of this model.
 */
module ConfigTree {
  datatype Entry = Entry(key: string, value: Node)

  datatype Node =
    | Scalar(text: string)
    | Map(entries: seq<Entry>)
    | Other(dumped: string)

  /** A flattened key with the node found under it. */
  type Leaf = (string, Node)

  /**
   * A character a key may hold. The loaders test keys against the character set
   * "abcdefghikjlmnopqrstuvwxyz._012345678": every lower-case letter, '.', '_' and the digits
   * 0 to 8 — the digit '9' is missing. `nine` says whether '9' is allowed too: false as
   * written, true as evidently intended.
   */
  predicate KeyChar(nine: bool, c: char)
  {
    ('a' <= c <= 'z') || c == '.' || c == '_' || ('0' <= c <= '8') || (nine && c == '9')
  }

  /** `key.find_first_not_of(charset) == npos`: every character of the key is allowed. */
  predicate ValidKey(nine: bool, key: string)
  {
    forall i :: 0 <= i < |key| ==> KeyChar(nine, key[i])
  }

  /** The key of child `k` under `prefix`: `k` itself at the root, `prefix.k` below it. */
  function Child(prefix: string, k: string): string
  {
    if prefix == [] then k else prefix + "." + k
  }

  /**
   * The leaves of the tree under `prefix`, in document order: every node that is not a map,
   * keyed by the dotted path of map keys leading to it.
   */
  function Leaves(prefix: string, n: Node): (r: seq<Leaf>)
    ensures forall i :: 0 <= i < |r| ==> !r[i].1.Map?
    decreases n, 1
  {
    match n
    case Map(es) => LeavesOf(prefix, es)
    case _ => [(prefix, n)]
  }

  function LeavesOf(prefix: string, es: seq<Entry>): (r: seq<Leaf>)
    ensures forall i :: 0 <= i < |r| ==> !r[i].1.Map?
    decreases es, 0
  {
    if es == [] then []
    else Leaves(Child(prefix, es[0].key), es[0].value) + LeavesOf(prefix, es[1..])
  }

  /** Every prefix the walk visits, the ones of inner maps included, is a valid key. */
  predicate AllKeysValid(nine: bool, prefix: string, n: Node)
    decreases n, 1
  {
    ValidKey(nine, prefix) && (n.Map? ==> EntriesValid(nine, prefix, n.entries))
  }

  predicate EntriesValid(nine: bool, prefix: string, es: seq<Entry>)
    decreases es, 0
  {
    es != [] ==>
      AllKeysValid(nine, Child(prefix, es[0].key), es[0].value) && EntriesValid(nine, prefix, es[1..])
  }

  /** No leaf is a map: what a walk of the tree hands on. */
  predicate NoMaps(leaves: seq<Leaf>)
  {
    forall i :: 0 <= i < |leaves| ==> !leaves[i].1.Map?
  }

  /** The text stored for a leaf: a scalar's own text, any other node's emitted text. */
  function Text(n: Node): string
    requires !n.Map?
  {
    match n
    case Scalar(t) => t
    case Other(d) => d
  }

  /** `std::tolower` in the C locale, character by character. */
  function ToLower(s: string): (r: string)
    ensures |r| == |s|
    ensures forall i :: 0 <= i < |s| ==> r[i] == if 'A' <= s[i] <= 'Z' then (s[i] as int + 32) as char else s[i]
  {
    if s == [] then []
    else [if 'A' <= s[0] <= 'Z' then (s[0] as int + 32) as char else s[0]] + ToLower(s[1..])
  }

  /** The leaf hands its text on under the key `k`: its key is not empty and lowers to `k`. */
  predicate Names(leaf: Leaf, k: string)
  {
    leaf.0 != [] && ToLower(leaf.0) == k
  }

  /** Keys are checked before they are lowered, and no allowed character is upper case, so lowering a valid key changes nothing. */
  lemma LowerValidKey(nine: bool, key: string)
    requires ValidKey(nine, key)
    ensures ToLower(key) == key
  {
  }

  /** The keys accepted as written are the intended valid keys without a '9'. */
  lemma NineMissing(key: string)
    ensures ValidKey(false, key) <==> ValidKey(true, key) && '9' !in key
  {
  }

  /** Every key the walk produces is one of the prefixes it visits, so all of them are valid when those are. */
  lemma {:induction false} LeafKeysValid(nine: bool, prefix: string, n: Node)
    requires AllKeysValid(nine, prefix, n)
    ensures forall i :: 0 <= i < |Leaves(prefix, n)| ==> ValidKey(nine, Leaves(prefix, n)[i].0)
    decreases n, 1
  {
    if n.Map? {
      EntryKeysValid(nine, prefix, n.entries);
    }
  }

  lemma {:induction false} EntryKeysValid(nine: bool, prefix: string, es: seq<Entry>)
    requires EntriesValid(nine, prefix, es)
    ensures forall i :: 0 <= i < |LeavesOf(prefix, es)| ==> ValidKey(nine, LeavesOf(prefix, es)[i].0)
    decreases es, 0
  {
    if es != [] {
      LeafKeysValid(nine, Child(prefix, es[0].key), es[0].value);
      EntryKeysValid(nine, prefix, es[1..]);
    }
  }
}
