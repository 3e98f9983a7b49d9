/** The input of the kbin writer: a tree of named elements with text and
    attributes (the `__type` and `__count` attributes carry the kbin type and
    the array marker), and the registry of kbin formats a type name resolves
    to. */
module Tree {
  import opened Bytes
  import opened Text

  datatype Option<T> = None | Some(value: T)

  datatype Attr = Attr(name: string, value: string)

  /** An element: its local name, its text value, all its attributes in
      document order (reserved `__` ones included) and its child elements. */
  datatype Node = Node(name: string, text: string, attrs: seq<Attr>, children: seq<Node>)

  /** A child is smaller than its parent (what ends the writer's recursion). */
  lemma ChildIsSmaller(n: Node, i: nat)
    requires i < |n.children|
    ensures n.children[i] < n
  {
  }

  /** The number of elements in the tree rooted at `n`. */
  function Size(n: Node): nat
    decreases n, 1
  {
    1 + KidsSize(n, |n.children|)
  }

  /** The number of elements in the subtrees of the first k children. */
  function KidsSize(n: Node, k: nat): nat
    requires k <= |n.children|
    decreases n, 0, k
  {
    if k == 0 then 0 else KidsSize(n, k - 1) + Size(n.children[k - 1])
  }

  /** No element of the tree carries an attribute. */
  predicate NoAttributes(n: Node)
  {
    |n.attrs| == 0 && forall i :: 0 <= i < |n.children| ==> NoAttributes(n.children[i])
  }

  /** `element.Attribute(key)?.Value`: the value of the attribute named `key`. */
  function Lookup(attrs: seq<Attr>, key: string): (r: Option<string>)
    ensures r.None? <==> forall i :: 0 <= i < |attrs| ==> attrs[i].name != key
    ensures r.Some? ==> exists i :: 0 <= i < |attrs| && attrs[i] == Attr(key, r.value)
  {
    if |attrs| == 0 then None
    else if attrs[0].name == key then Some(attrs[0].value)
    else Lookup(attrs[1..], key)
  }

  /** The kbin type of a node: its `__type` attribute, else "str" when it has
      text, else "void". */
  function TypeName(n: Node): (r: string)
    ensures Lookup(n.attrs, "__type").Some? ==> r == Lookup(n.attrs, "__type").value
    ensures Lookup(n.attrs, "__type").None? ==> (r == "str" <==> |n.text| > 0)
    ensures Lookup(n.attrs, "__type").None? ==> (r == "void" <==> |n.text| == 0)
  {
    match Lookup(n.attrs, "__type")
    case Some(t) => t
    case None => if |n.text| > 0 then "str" else "void"
  }

  /** A node is array-valued exactly when it carries a `__count` attribute. */
  predicate IsArray(n: Node)
    ensures IsArray(n) <==> exists i :: 0 <= i < |n.attrs| && n.attrs[i].name == "__count"
  {
    Lookup(n.attrs, "__count").Some?
  }

  // ---------------------------------------------------------------------------
  // Formats
  // ---------------------------------------------------------------------------

  /** A registered kbin type: its id (the low six bits of a node's control
      byte), its canonical name and aliases, the byte width of one element,
      the number of elements of a scalar (-1 for variable length), and the
      codec from one textual element to its bytes. */
  datatype Format = Format(
    id: int,
    name: string,
    aliases: seq<string>,
    size: int,
    count: int,
    fromString: string -> seq<byte>)

  predicate HasName(f: Format, t: string)
  {
    f.name == t || t in f.aliases
  }

  /** `Formats.First(x => x.Value.HasName(t))`: the position of the first
      registered format answering to `t`, or None where `First` would throw. */
  function FindFormat(formats: seq<Format>, t: string): (r: Option<nat>)
    ensures r.None? <==> forall i :: 0 <= i < |formats| ==> !HasName(formats[i], t)
    ensures r.Some? ==> r.value < |formats| && HasName(formats[r.value], t)
    ensures r.Some? ==> forall j :: 0 <= j < r.value ==> !HasName(formats[j], t)
  {
    if |formats| == 0 then None
    else if HasName(formats[0], t) then Some(0)
    else
      match FindFormat(formats[1..], t)
      case None => None
      case Some(i) => Some(i + 1)
  }

  // ---------------------------------------------------------------------------
  // int.Parse(countValue)
  // ---------------------------------------------------------------------------

  predicate IsDigit(c: char)
  {
    '0' <= c <= '9'
  }

  function DigitsValue(s: string): nat
    requires forall i :: 0 <= i < |s| ==> IsDigit(s[i])
  {
    if |s| == 0 then 0
    else
      var last := s[|s| - 1];
      assert IsDigit(last);
      10 * DigitsValue(s[..|s| - 1]) + (last as int - '0' as int)
  }

  /** What `int.Parse` accepts, modulo surrounding white space: an optional
      sign, at least one decimal digit, and a value in the range of `int`. */
  predicate ParsesAsInt(s: string)
  {
    var digits := if |s| > 0 && (s[0] == '-' || s[0] == '+') then s[1..] else s;
    && |digits| > 0
    && (forall i :: 0 <= i < |digits| ==> IsDigit(digits[i]))
    && (if |s| > 0 && s[0] == '-' then DigitsValue(digits) <= 0x8000_0000
        else DigitsValue(digits) < 0x8000_0000)
  }

  // ---------------------------------------------------------------------------
  // element.Attributes().OrderBy(x => x.Name.LocalName)
  // ---------------------------------------------------------------------------

  predicate SortedByName(s: seq<Attr>)
  {
    forall i, j :: 0 <= i < j < |s| ==> OrdinalLe(s[i].name, s[j].name)
  }

  /** Inserts `a` after every element whose name is not greater than its own. */
  function InsertByName(a: Attr, s: seq<Attr>): (r: seq<Attr>)
    ensures multiset(r) == multiset(s) + multiset{a}
    ensures |r| == |s| + 1
  {
    if |s| == 0 || !OrdinalLe(s[0].name, a.name) then [a] + s
    else
      assert s == [s[0]] + s[1..];
      [s[0]] + InsertByName(a, s[1..])
  }

  lemma {:induction false} InsertKeepsSorted(a: Attr, s: seq<Attr>)
    requires SortedByName(s)
    ensures SortedByName(InsertByName(a, s))
  {
    var r := InsertByName(a, s);
    if |s| == 0 {
    } else if !OrdinalLe(s[0].name, a.name) {
      OrdinalTotal(a.name, s[0].name);
      forall j | 1 < j < |r|
        ensures OrdinalLe(a.name, r[j].name)
      {
        assert r[j] == s[j - 1];
        OrdinalTransitive(a.name, s[0].name, r[j].name);
      }
    } else {
      var t := InsertByName(a, s[1..]);
      InsertKeepsSorted(a, s[1..]);
      forall j | 0 <= j < |t|
        ensures OrdinalLe(s[0].name, t[j].name)
      {
        assert t[j] in multiset(t);
        assert t[j] == a || t[j] in multiset(s[1..]);
        if t[j] != a {
          var k :| 0 <= k < |s[1..]| && s[1..][k] == t[j];
          assert s[k + 1] == t[j];
        }
      }
      assert r == [s[0]] + t;
    }
  }

  /** The stable ordinal sort of the attributes by name: sorted, and a
      permutation of the input. */
  function SortByName(s: seq<Attr>): (r: seq<Attr>)
    ensures SortedByName(r)
    ensures multiset(r) == multiset(s)
  {
    if |s| == 0 then []
    else
      var init := s[..|s| - 1];
      assert s == init + [s[|s| - 1]];
      InsertKeepsSorted(s[|s| - 1], SortByName(init));
      InsertByName(s[|s| - 1], SortByName(init))
  }
}
