/** The parsed page as BeautifulSoup presents it to the extractor: a tree of
    elements and text nodes, CSS selection of the first matching element
    (select_one), find_all by tag name, stripped_strings and
    get_text(strip=True). A document is the forest of the soup's top-level
    nodes. */
module Dom {
  import opened Wrappers
  import opened Strings

  /** An element keeps the parts of its markup the selectors look at: the
      tag name (lower-case, as html.parser produces it), the id attribute
      and the class list (html.parser splits class="a b" into ["a", "b"]). */
  datatype Node =
    | Element(tag: string, elemId: Option<string>, classes: seq<string>, children: seq<Node>)
    | Text(content: string)

  /** The four selector forms that occur in the extractor's selector list. */
  datatype Selector =
    | TagClass(tag: string, cls: string)           // tag.cls
    | TagId(tag: string, ident: string)            // tag#ident
    | ClassWithin(ancestor: string, cls: string)   // ancestor .cls
    | TagClassContains(tag: string, part: string)  // tag[class*="part"]

  /** The class attribute's value as an attribute selector sees it: the
      class list joined by single spaces. */
  function ClassAttribute(classes: seq<string>): string {
    Join(" ", classes)
  }

  /** Does element n, whose ancestors have the tags in `ancestors`, match
      sel? Only elements match; an id selector needs the element to carry
      an id, and every class selector, or substring selector with a
      non-empty part, needs it to carry a class. */
  predicate Matches(sel: Selector, ancestors: seq<string>, n: Node)
    ensures Matches(sel, ancestors, n) ==> n.Element?
    ensures Matches(sel, ancestors, n) && sel.TagId? ==> n.elemId == Some(sel.ident)
    ensures Matches(sel, ancestors, n) && !sel.TagId? && !(sel.TagClassContains? && sel.part == "") ==> n.classes != []
  {
    n.Element? &&
    match sel
    case TagClass(t, c) => n.tag == t && c in n.classes
    case TagId(t, i) => n.tag == t && n.elemId == Some(i)
    case ClassWithin(a, c) => a in ancestors && c in n.classes
    case TagClassContains(t, p) =>
      n.tag == t && Contains(ClassAttribute(n.classes), p)
  }

  /** The node reached by following child indices from a forest. */
  function At(forest: seq<Node>, path: seq<nat>): Option<Node>
    decreases path
  {
    if path == [] || path[0] >= |forest| then None
    else if |path| == 1 then Some(forest[path[0]])
    else match forest[path[0]]
      case Text(_) => None
      case Element(_, _, _, cs) => At(cs, path[1..])
  }

  /** Path q comes before path p in document order: q leads to an
      ancestor of p's node, or the two part where q takes an earlier child. */
  predicate PathBefore(q: seq<nat>, p: seq<nat>)
    decreases |q|
  {
    |q| > 0 && |p| > 0 &&
    (q[0] < p[0] || (q[0] == p[0] && |p| > 1 && (|q| == 1 || PathBefore(q[1..], p[1..]))))
  }

  lemma {:induction false} PathBeforeIrreflexive(q: seq<nat>)
    ensures !PathBefore(q, q)
    decreases |q|
  {
    if |q| > 1 {
      PathBeforeIrreflexive(q[1..]);
    }
  }

  lemma {:induction false} PathBeforeTransitive(a: seq<nat>, b: seq<nat>, c: seq<nat>)
    requires PathBefore(a, b) && PathBefore(b, c)
    ensures PathBefore(a, c)
    decreases |a|
  {
    if a[0] == b[0] && b[0] == c[0] && |a| > 1 {
      PathBeforeTransitive(a[1..], b[1..], c[1..]);
    }
  }

  /** Moving both paths to the same next sibling, or below the same child,
      keeps their order. */
  lemma PathBeforeShift(q: seq<nat>, p: seq<nat>)
    requires PathBefore(q, p)
    ensures PathBefore([q[0] + 1] + q[1..], [p[0] + 1] + p[1..])
  {
    assert ([q[0] + 1] + q[1..])[1..] == q[1..];
    assert ([p[0] + 1] + p[1..])[1..] == p[1..];
  }

  lemma PathBeforeCons(x: nat, q: seq<nat>, p: seq<nat>)
    requires q == p || PathBefore(q, p)
    requires |q| > 0 && |p| > 0
    ensures PathBefore([x] + q, [x] + p) || [x] + q == [x] + p
  {
    assert ([x] + q)[1..] == q;
    assert ([x] + p)[1..] == p;
  }

  /** A match found by select_one: where it is and what it is. */
  datatype Hit = Hit(path: seq<nat>, element: Node)

  /** select_one: the first element of the forest, in document order (an
      element before its descendants, those before its later siblings),
      that matches sel. */
  function FirstMatch(sel: Selector, forest: seq<Node>, ancestors: seq<string>): (r: Option<Hit>)
    ensures r.Some? ==> r.value.element.Element? && At(forest, r.value.path) == Some(r.value.element)
    ensures r.Some? ==> Matches(sel, ancestors + AncestorTags(forest, r.value.path), r.value.element)
    decreases forest
  {
    if forest == [] then None
    else
      var head := forest[0];
      if Matches(sel, ancestors, head) then Some(Hit([0], head))
      else
        var inner := if head.Element? then FirstMatch(sel, head.children, ancestors + [head.tag]) else None;
        if inner.Some? then
          assert ancestors + [head.tag] + AncestorTags(head.children, inner.value.path)
              == ancestors + AncestorTags(forest, [0] + inner.value.path);
          Some(Hit([0] + inner.value.path, inner.value.element))
        else
          match FirstMatch(sel, forest[1..], ancestors)
          case None => None
          case Some(h) =>
            var p := [h.path[0] + 1] + h.path[1..];
            assert AncestorTags(forest, p) == AncestorTags(forest[1..], h.path);
            Some(Hit(p, h.element))
  }

  /** The tags of the elements strictly above the node at `path`. */
  function AncestorTags(forest: seq<Node>, path: seq<nat>): seq<string>
    decreases path
  {
    if |path| <= 1 || path[0] >= |forest| then []
    else match forest[path[0]]
      case Text(_) => []
      case Element(t, _, _, cs) => [t] + AncestorTags(cs, path[1..])
  }

  /** The element at p, if there is one, matches sel given the tags above it. */
  predicate MatchesAt(sel: Selector, forest: seq<Node>, ancestors: seq<string>, p: seq<nat>) {
    At(forest, p).Some? && At(forest, p).value.Element? &&
    Matches(sel, ancestors + AncestorTags(forest, p), At(forest, p).value)
  }

  /** A path into the forest's tail, seen from the whole forest. */
  lemma AtTail(forest: seq<Node>, p: seq<nat>)
    requires |forest| > 0 && |p| > 0
    ensures At(forest, [p[0] + 1] + p[1..]) == At(forest[1..], p)
    ensures AncestorTags(forest, [p[0] + 1] + p[1..]) == AncestorTags(forest[1..], p)
  {
    var q := [p[0] + 1] + p[1..];
    assert q[1..] == p[1..];
  }

  /** select_one misses nothing: when some element matches, it returns a
      match, at that element's path or at an earlier one. */
  lemma {:induction false} FirstMatchComplete(sel: Selector, forest: seq<Node>, ancestors: seq<string>, p: seq<nat>)
    requires MatchesAt(sel, forest, ancestors, p)
    ensures FirstMatch(sel, forest, ancestors).Some?
    ensures var q := FirstMatch(sel, forest, ancestors).value.path; q == p || PathBefore(q, p)
    decreases forest, 1
  {
    var head := forest[0];
    if Matches(sel, ancestors, head) {
    } else if p[0] == 0 {
      if |p| > 1 && head.Element? {
        assert At(head.children, p[1..]) == At(forest, p);
        assert ancestors + AncestorTags(forest, p) == (ancestors + [head.tag]) + AncestorTags(head.children, p[1..]);
        FirstMatchComplete(sel, head.children, ancestors + [head.tag], p[1..]);
        var inner := FirstMatch(sel, head.children, ancestors + [head.tag]).value.path;
        PathBeforeCons(0, inner, p[1..]);
        assert [0] + p[1..] == p;
      }
    } else if !(head.Element? && FirstMatch(sel, head.children, ancestors + [head.tag]).Some?) {
      FirstMatchCompleteTail(sel, forest, ancestors, p);
    }
  }

  /** The case of FirstMatchComplete where the match lies after the first
      node and nothing in or under that node matches. */
  lemma {:induction false} FirstMatchCompleteTail(sel: Selector, forest: seq<Node>, ancestors: seq<string>, p: seq<nat>)
    requires MatchesAt(sel, forest, ancestors, p) && p[0] > 0
    requires !Matches(sel, ancestors, forest[0])
    requires !(forest[0].Element? && FirstMatch(sel, forest[0].children, ancestors + [forest[0].tag]).Some?)
    ensures FirstMatch(sel, forest, ancestors).Some?
    ensures var q := FirstMatch(sel, forest, ancestors).value.path; q == p || PathBefore(q, p)
    decreases forest, 0
  {
    var p' := [p[0] - 1] + p[1..];
    AtTail(forest, p');
    assert [p'[0] + 1] + p'[1..] == p;
    FirstMatchComplete(sel, forest[1..], ancestors, p');
    var h := FirstMatch(sel, forest[1..], ancestors).value.path;
    if h != p' {
      PathBeforeShift(h, p');
    }
  }

  /** select_one returns the first match in document order: no element on
      a path before the returned one matches. */
  lemma FirstMatchIsFirst(sel: Selector, forest: seq<Node>, ancestors: seq<string>, q: seq<nat>)
    requires FirstMatch(sel, forest, ancestors).Some?
    requires PathBefore(q, FirstMatch(sel, forest, ancestors).value.path)
    ensures !MatchesAt(sel, forest, ancestors, q)
  {
    var r := FirstMatch(sel, forest, ancestors).value.path;
    if MatchesAt(sel, forest, ancestors, q) {
      FirstMatchComplete(sel, forest, ancestors, q);
      if r == q {
        PathBeforeIrreflexive(q);
      } else {
        PathBeforeTransitive(r, q, r);
        PathBeforeIrreflexive(r);
      }
    }
  }

  /** The forest with the node at `path` replaced by n; an invalid path
      changes nothing. */
  function ReplaceAt(forest: seq<Node>, path: seq<nat>, n: Node): (r: seq<Node>)
    ensures |r| == |forest|
    ensures At(forest, path).Some? ==> At(r, path) == Some(n)
    ensures forall i :: 0 <= i < |forest| && (path == [] || i != path[0]) ==> r[i] == forest[i]
    decreases path
  {
    if path == [] || path[0] >= |forest| then forest
    else if |path| == 1 then forest[path[0] := n]
    else match forest[path[0]]
      case Text(_) => forest
      case Element(t, i, c, cs) => forest[path[0] := Element(t, i, c, ReplaceAt(cs, path[1..], n))]
  }

  /** Replacing one node leaves the elements above it as they were, apart
      from their children: same tag, id and class list. */
  lemma {:induction false} ReplaceAtAncestors(forest: seq<Node>, path: seq<nat>, n: Node, q: seq<nat>)
    requires q < path
    requires At(forest, q).Some? && At(forest, q).value.Element?
    ensures var e := At(forest, q).value;
      At(ReplaceAt(forest, path, n), q).Some? &&
      At(ReplaceAt(forest, path, n), q).value.Element? &&
      At(ReplaceAt(forest, path, n), q).value.tag == e.tag &&
      At(ReplaceAt(forest, path, n), q).value.elemId == e.elemId &&
      At(ReplaceAt(forest, path, n), q).value.classes == e.classes
    decreases q
  {
    assert q[0] == path[0];
    if |q| > 1 {
      var cs := forest[path[0]].children;
      assert q[1..] < path[1..];
      ReplaceAtAncestors(cs, path[1..], n, q[1..]);
    }
  }

  /** Replacing one node changes nothing off its path: a node whose path
      neither leads to nor lies below the replaced one is still there. */
  lemma {:induction false} ReplaceAtFrame(forest: seq<Node>, path: seq<nat>, n: Node, q: seq<nat>)
    requires !(q <= path) && !(path <= q)
    ensures At(ReplaceAt(forest, path, n), q) == At(forest, q)
    decreases path
  {
    if path[0] < |forest| && q[0] == path[0] {
      assert |path| > 1 && |q| > 1;
      match forest[path[0]]
      case Text(_) =>
      case Element(t, i, c, cs) =>
        assert !(q[1..] <= path[1..]) && !(path[1..] <= q[1..]) by {
          assert q == [q[0]] + q[1..] && path == [path[0]] + path[1..];
        }
        ReplaceAtFrame(cs, path[1..], n, q[1..]);
    }
  }

  /** Tag.stripped_strings over a forest: each text node in document order,
      stripped, blank ones skipped. */
  function StrippedStrings(forest: seq<Node>): (r: seq<string>)
    ensures WellStripped(r)
    decreases forest
  {
    if forest == [] then []
    else
      var here := match forest[0]
        case Text(s) => if Strip(s) == [] then [] else [Strip(s)]
        case Element(_, _, _, cs) => StrippedStrings(cs);
      here + StrippedStrings(forest[1..])
  }

  /** stripped_strings walks the forest in order: the strings of two
      forests side by side are those of the first, then those of the second. */
  lemma {:induction false} StrippedStringsAppend(a: seq<Node>, b: seq<Node>)
    ensures StrippedStrings(a + b) == StrippedStrings(a) + StrippedStrings(b)
    decreases a
  {
    if a != [] {
      assert (a + b)[0] == a[0] && (a + b)[1..] == a[1..] + b;
      StrippedStringsAppend(a[1..], b);
    } else {
      assert a + b == b;
    }
  }

  /** What one node contributes to stripped_strings. */
  lemma StrippedStringsOne(n: Node)
    ensures n.Text? ==> StrippedStrings([n]) == (if Strip(n.content) == [] then [] else [Strip(n.content)])
    ensures n.Element? ==> StrippedStrings([n]) == StrippedStrings(n.children)
  {
    assert [n][1..] == [];
  }

  /** find_all(tag): every element with that tag in the forest, in document order. */
  function FindAll(forest: seq<Node>, tag: string): (r: seq<Node>)
    ensures forall i :: 0 <= i < |r| ==> r[i].Element? && r[i].tag == tag
    decreases forest
  {
    if forest == [] then []
    else
      var here := match forest[0]
        case Text(_) => []
        case Element(t, _, _, cs) => (if t == tag then [forest[0]] else []) + FindAll(cs, tag);
      here + FindAll(forest[1..], tag)
  }

  /** find_all walks the forest in order: the elements found in two
      forests side by side are those of the first, then those of the second. */
  lemma {:induction false} FindAllAppend(a: seq<Node>, b: seq<Node>, tag: string)
    ensures FindAll(a + b, tag) == FindAll(a, tag) + FindAll(b, tag)
    decreases a
  {
    if a != [] {
      assert (a + b)[0] == a[0] && (a + b)[1..] == a[1..] + b;
      FindAllAppend(a[1..], b, tag);
    } else {
      assert a + b == b;
    }
  }

  /** What one node contributes to find_all: the node itself when it is an
      element with the tag, then the matching elements below it. */
  lemma FindAllOne(n: Node, tag: string)
    ensures FindAll([n], tag) == (if n.Element? then (if n.tag == tag then [n] else []) + FindAll(n.children, tag) else [])
  {
    assert [n][1..] == [];
  }

  /** find_all misses nothing: every element with the tag, at any depth,
      is among the elements it returns. */
  lemma {:induction false} FindAllComplete(forest: seq<Node>, tag: string, p: seq<nat>)
    requires At(forest, p).Some? && At(forest, p).value.Element? && At(forest, p).value.tag == tag
    ensures At(forest, p).value in FindAll(forest, tag)
    decreases forest
  {
    var head := forest[0];
    var rest := FindAll(forest[1..], tag);
    if p[0] > 0 {
      var p' := [p[0] - 1] + p[1..];
      AtTail(forest, p');
      assert [p'[0] + 1] + p'[1..] == p;
      FindAllComplete(forest[1..], tag, p');
    } else if |p| > 1 {
      assert At(head.children, p[1..]) == At(forest, p);
      FindAllComplete(head.children, tag, p[1..]);
    }
  }

  /** e.get_text(strip=True): the stripped strings below e, concatenated
      with no separator. */
  function GetTextStripped(e: Node): (r: string)
    requires e.Element?
    ensures IsTrimmed(r)
    ensures r == [] <==> StrippedStrings(e.children) == []
  {
    JoinWellStripped("", StrippedStrings(e.children));
    Concat(StrippedStrings(e.children))
  }
}
