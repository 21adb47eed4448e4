/**
 * The card excerpt of a post (`makeExcerpt` in src/pages/blog.tsx).
 *
 * A post body is rich text: an array of entries, each tagged by `_type`.
 * Entries of type "block" carry an array of child spans, each with a
 * `text`. The excerpt joins the spans of each block with one space, joins
 * the blocks with one space and cuts the result to `limit` characters plus
 * "...". Reading a field of a `null` entry or span, or calling `map` on
 * `children` that are not an array, throws a TypeError; the model keeps
 * those paths as `Throws`.
 */
module Excerpt {
  import opened Wrappers
  import opened Text

  /** The limit used when `makeExcerpt` is called without one. */
  const DefaultLimit: nat := 150

  /** The ellipsis appended to a cut excerpt. */
  const Ellipsis: string := "..."

  /** One element of a block's `children` array. */
  datatype Child =
    | NullChild                    // a `null` element: reading `.text` throws
    | Span(text: Option<string>)   // `text` missing or `null` is `None`

  /** The `children` field of an entry. */
  datatype Children =
    | NoChildren                   // undefined or null: `?.` yields undefined
    | ChildArray(items: seq<Child>)
    | ChildrenNotArray             // any other value: `.map` is not a function

  /** One element of the body array. */
  datatype Entry =
    | NullEntry                    // a `null` element: reading `._type` throws
    | Node(typeName: string, children: Children)

  /** The `body` field of a post. */
  datatype Body =
    | Missing                      // undefined or null
    | NotAnArray                   // present but not an array
    | Entries(entries: seq<Entry>)

  /** What evaluating `makeExcerpt` does: return a string or throw. */
  datatype Outcome = Returns(value: string) | Throws

  /** `b._type === "block"` for a non-null entry. */
  predicate IsBlock(e: Entry) {
    e.Node? && e.typeName == "block"
  }

  /**
   * `body.filter(b => b._type === "block")`, giving the `children` of each
   * kept entry in order; `None` when some entry is `null`.
   */
  function BlockChildren(es: seq<Entry>): (r: Option<seq<Children>>)
    ensures r.Some? <==> forall i :: 0 <= i < |es| ==> es[i].Node?
    ensures r.Some? ==> |r.value| <= |es|
    decreases |es|
  {
    if es == [] then Some([])
    else
      match es[0]
      case NullEntry => None
      case Node(t, cs) =>
        match BlockChildren(es[1..])
        case None => None
        case Some(rest) => Some(if t == "block" then [cs] + rest else rest)
  }

  /** `c.text` as `join` renders it: missing text becomes the empty string. */
  function SpanTexts(cs: seq<Child>): (r: Option<seq<string>>)
    ensures r.Some? <==> forall i :: 0 <= i < |cs| ==> cs[i].Span?
    ensures r.Some? ==> |r.value| == |cs|
    ensures r.Some? ==> forall i :: 0 <= i < |cs| ==> r.value[i] == cs[i].text.GetOr("")
    decreases |cs|
  {
    if cs == [] then Some([])
    else
      match cs[0]
      case NullChild => None
      case Span(t) =>
        match SpanTexts(cs[1..])
        case None => None
        case Some(rest) => Some([t.GetOr("")] + rest)
  }

  /**
   * `b.children?.map(c => c.text).join(" ")` as the outer `join` renders it:
   * missing children give the empty segment.
   */
  function BlockText(children: Children): (r: Option<string>)
    ensures r.Some? <==> WellFormedChildren(children)
    ensures children.NoChildren? ==> r == Some("")
    ensures children == ChildArray([]) ==> r == Some("")
  {
    match children
    case NoChildren => Some("")
    case ChildrenNotArray => None
    case ChildArray(items) =>
      match SpanTexts(items)
      case None => None
      case Some(texts) => Some(Join(texts, " "))
  }

  /** The segment of every kept block, in order; `None` when one throws. */
  function BlockTexts(blocks: seq<Children>): (r: Option<seq<string>>)
    ensures r.Some? <==> forall i :: 0 <= i < |blocks| ==> BlockText(blocks[i]).Some?
    ensures r.Some? ==> |r.value| == |blocks|
    ensures r.Some? ==> forall i :: 0 <= i < |blocks| ==> r.value[i] == BlockText(blocks[i]).value
    decreases |blocks|
  {
    if blocks == [] then Some([])
    else
      match BlockText(blocks[0])
      case None => None
      case Some(t) =>
        match BlockTexts(blocks[1..])
        case None => None
        case Some(rest) => Some([t] + rest)
  }

  /** The untruncated excerpt text of a body array; `None` when it throws. */
  function FullText(es: seq<Entry>): (r: Option<string>)
    ensures r.Some? <==> WellFormed(es)
    ensures BlockChildren(es) == Some([]) ==> r == Some("")
  {
    match BlockChildren(es)
    case None => None
    case Some(blocks) =>
      KeptBlocksWellFormed(es, blocks);
      match BlockTexts(blocks)
      case None => None
      case Some(segments) => Some(Join(segments, " "))
  }

  /**
   * `text.length > limit ? text.slice(0, limit) + "..." : text`: a text
   * within the limit is kept whole, a longer one is cut to exactly `limit`
   * characters followed by the ellipsis.
   */
  function Truncate(text: string, limit: nat): (r: string)
    ensures |text| <= limit ==> r == text
    ensures |text| > limit ==> |r| == limit + |Ellipsis| && r[..limit] == text[..limit] && r[limit..] == Ellipsis
    ensures |r| <= limit + |Ellipsis|
  {
    if |text| > limit then text[..limit] + Ellipsis else text
  }

  /** `makeExcerpt(body, limit)`. */
  function MakeExcerpt(body: Body, limit: nat): (r: Outcome)
    ensures !body.Entries? ==> r == Returns("")
    ensures r.Returns? ==> |r.value| <= limit + |Ellipsis|
  {
    match body
    case Missing => Returns("")
    case NotAnArray => Returns("")
    case Entries(es) =>
      match FullText(es)
      case None => Throws
      case Some(text) => Returns(Truncate(text, limit))
  }

  /** A block whose children are a well-formed span array, or absent. */
  ghost predicate WellFormedChildren(cs: Children) {
    match cs
    case NoChildren => true
    case ChildrenNotArray => false
    case ChildArray(items) => forall k :: 0 <= k < |items| ==> items[k] != NullChild
  }

  /**
   * A body array on which `makeExcerpt` cannot throw: no entry is `null`
   * and every block has absent children or an array of non-null spans.
   * Entries of other types are never inspected past `_type`.
   */
  ghost predicate WellFormed(es: seq<Entry>) {
    && (forall i :: 0 <= i < |es| ==> es[i] != NullEntry)
    && (forall i :: 0 <= i < |es| && IsBlock(es[i]) ==> WellFormedChildren(es[i].children))
  }

  /**
   * Every kept element is the children of some block entry, and the
   * children of every block entry are kept; order and multiplicity are
   * stated by BlockChildrenAppend and BlockChildrenSingle.
   */
  lemma {:induction false} BlockChildrenAreBlocks(es: seq<Entry>, blocks: seq<Children>)
    requires BlockChildren(es) == Some(blocks)
    ensures forall j :: 0 <= j < |blocks| ==> exists i :: 0 <= i < |es| && IsBlock(es[i]) && es[i].children == blocks[j]
    ensures forall i :: 0 <= i < |es| && IsBlock(es[i]) ==> es[i].children in blocks
    decreases |es|
  {
    if es != [] {
      var rest := BlockChildren(es[1..]).value;
      BlockChildrenAreBlocks(es[1..], rest);
      forall j | 0 <= j < |blocks|
        ensures exists i :: 0 <= i < |es| && IsBlock(es[i]) && es[i].children == blocks[j]
      {
        if IsBlock(es[0]) && j == 0 {
          assert IsBlock(es[0]) && es[0].children == blocks[j];
        } else {
          var j' := if IsBlock(es[0]) then j - 1 else j;
          assert blocks[j] == rest[j'];
          var i' :| 0 <= i' < |es[1..]| && IsBlock(es[1..][i']) && es[1..][i'].children == rest[j'];
          assert es[i' + 1] == es[1..][i'];
        }
      }
      forall i | 0 <= i < |es| && IsBlock(es[i]) ensures es[i].children in blocks {
        if i > 0 {
          assert es[i] == es[1..][i - 1];
        }
      }
    }
  }

  /** The kept blocks all yield a segment exactly when every block entry is well-formed. */
  lemma KeptBlocksWellFormed(es: seq<Entry>, blocks: seq<Children>)
    requires BlockChildren(es) == Some(blocks)
    ensures BlockTexts(blocks).Some? <==> forall i :: 0 <= i < |es| && IsBlock(es[i]) ==> WellFormedChildren(es[i].children)
  {
    BlockChildrenAreBlocks(es, blocks);
  }

  /**
   * `makeExcerpt` throws on a body array exactly when the array is not
   * well-formed; in every other case it returns a string.
   */
  lemma ExcerptThrowsIff(es: seq<Entry>, limit: nat)
    ensures MakeExcerpt(Entries(es), limit) == Throws <==> !WellFormed(es)
  {
  }

  /** Splicing a non-block entry into a body array leaves the kept blocks unchanged. */
  lemma {:induction false} OtherEntryKeepsBlocks(pre: seq<Entry>, other: Entry, post: seq<Entry>)
    requires other.Node? && !IsBlock(other)
    ensures BlockChildren(pre + [other] + post) == BlockChildren(pre + post)
    decreases |pre|
  {
    if pre == [] {
      assert (pre + [other] + post)[1..] == post;
      assert pre + post == post;
    } else {
      assert (pre + [other] + post)[1..] == pre[1..] + [other] + post;
      assert (pre + post)[1..] == pre[1..] + post;
      OtherEntryKeepsBlocks(pre[1..], other, post);
    }
  }

  /**
   * Only entries of type "block" contribute text: inserting an entry of any
   * other type anywhere in the body does not change the excerpt.
   */
  lemma OtherEntriesIgnored(pre: seq<Entry>, other: Entry, post: seq<Entry>, limit: nat)
    requires other.Node? && !IsBlock(other)
    ensures MakeExcerpt(Entries(pre + [other] + post), limit) == MakeExcerpt(Entries(pre + post), limit)
  {
    OtherEntryKeepsBlocks(pre, other, post);
  }

  /** The block filter applied to a single entry. */
  lemma BlockChildrenSingle(e: Entry)
    ensures e.NullEntry? ==> BlockChildren([e]).None?
    ensures IsBlock(e) ==> BlockChildren([e]).Some? && BlockChildren([e]).value == [e.children]
    ensures e.Node? && !IsBlock(e) ==> BlockChildren([e]).Some? && BlockChildren([e]).value == []
  {
    assert [e][1..] == [];
  }

  /**
   * The block filter works entry by entry: the kept children of `a + b` are
   * those of `a` followed by those of `b`, and it throws when either part
   * does. With BlockChildrenSingle this fixes the result as the children of
   * the block entries in body order, each entry contributing once.
   */
  lemma {:induction false} BlockChildrenAppend(a: seq<Entry>, b: seq<Entry>)
    ensures BlockChildren(a + b).Some? <==> BlockChildren(a).Some? && BlockChildren(b).Some?
    ensures BlockChildren(a + b).Some? ==> BlockChildren(a + b).value == BlockChildren(a).value + BlockChildren(b).value
    decreases |a|
  {
    if a == [] {
      assert a + b == b;
      if BlockChildren(b).Some? {
        assert BlockChildren(a).value + BlockChildren(b).value == BlockChildren(b).value;
      }
    } else {
      assert (a + b)[1..] == a[1..] + b;
      BlockChildrenAppend(a[1..], b);
      if a[0].Node? && a[0].typeName == "block" && BlockChildren(a[1..]).Some? && BlockChildren(b).Some? {
        assert [a[0].children] + BlockChildren(a[1..]).value + BlockChildren(b).value
          == [a[0].children] + (BlockChildren(a[1..]).value + BlockChildren(b).value);
      }
    }
  }

  /**
   * Appending a block entry to a body array appends its segment to the
   * excerpt text: after a single space when some block precedes it, and
   * as the whole text otherwise.
   */
  lemma AppendBlockText(es: seq<Entry>, cs: Children)
    requires FullText(es).Some? && BlockText(cs).Some?
    ensures FullText(es + [Node("block", cs)]).Some?
    ensures FullText(es + [Node("block", cs)]).value ==
      if BlockChildren(es).value == [] then BlockText(cs).value
      else FullText(es).value + " " + BlockText(cs).value
  {
    BlockChildrenAppend(es, [Node("block", cs)]);
    BlockChildrenSingle(Node("block", cs));
    var blocks := BlockChildren(es).value;
    var segments := BlockTexts(blocks).value;
    var all := blocks + [cs];
    assert BlockChildren(es + [Node("block", cs)]).value == all;
    var joined := BlockTexts(all);
    assert joined.Some?;
    assert joined.value == segments + [BlockText(cs).value];
    if blocks == [] {
      assert joined.value == [BlockText(cs).value];
    } else {
      JoinAppend(segments, [BlockText(cs).value], " ");
    }
  }

  /**
   * Appending a span to a block's children array appends its text to the
   * block's segment, after one space when the array already had a span.
   */
  lemma AppendSpan(items: seq<Child>, t: Option<string>)
    requires WellFormedChildren(ChildArray(items))
    ensures BlockText(ChildArray(items + [Span(t)])).Some?
    ensures BlockText(ChildArray(items + [Span(t)])).value ==
      if items == [] then t.GetOr("")
      else BlockText(ChildArray(items)).value + " " + t.GetOr("")
  {
    var all := items + [Span(t)];
    var texts := SpanTexts(items).value;
    assert SpanTexts(all).value == texts + [t.GetOr("")];
    if items != [] {
      JoinAppend(texts, [t.GetOr("")], " ");
    }
  }

  /**
   * The excerpt of a body array that fits within the limit is its joined
   * block text itself; a longer text is cut to `limit` characters and marked
   * with the ellipsis.
   */
  lemma ExcerptTruncation(es: seq<Entry>, limit: nat)
    requires WellFormed(es)
    ensures FullText(es).Some?
    ensures |FullText(es).value| <= limit ==> MakeExcerpt(Entries(es), limit) == Returns(FullText(es).value)
    ensures |FullText(es).value| > limit ==>
      && MakeExcerpt(Entries(es), limit).Returns?
      && |MakeExcerpt(Entries(es), limit).value| == limit + 3
      && MakeExcerpt(Entries(es), limit).value == FullText(es).value[..limit] + "..."
  {
  }

  /** A body array without `null` entries and without blocks, such as `[]`, gives the empty excerpt. */
  lemma {:induction false} NoBlocksExcerpt(es: seq<Entry>, limit: nat)
    requires forall i :: 0 <= i < |es| ==> es[i].Node? && !IsBlock(es[i])
    ensures MakeExcerpt(Entries(es), limit) == Returns("")
  {
    NoBlocksKept(es);
  }

  lemma {:induction false} NoBlocksKept(es: seq<Entry>)
    requires forall i :: 0 <= i < |es| ==> es[i].Node? && !IsBlock(es[i])
    ensures BlockChildren(es) == Some([])
    decreases |es|
  {
    if es != [] {
      NoBlocksKept(es[1..]);
    }
  }

  /** One block with the spans "Hello" and "world" gives "Hello world". */
  lemma HelloWorldExample()
    ensures MakeExcerpt(Entries([Node("block", ChildArray([Span(Some("Hello")), Span(Some("world"))]))]), DefaultLimit)
      == Returns("Hello world")
  {
  }

  /**
   * A body with a block without children, an image entry, a block whose one
   * span has no text, and a block with the span "a".
   */
  const GappedBody: seq<Entry> := [Node("block", NoChildren), Node("image", NoChildren),
                                   Node("block", ChildArray([Span(None)])), Node("block", ChildArray([Span(Some("a"))]))]

  lemma GappedBodyBlocks()
    ensures BlockChildren(GappedBody).Some?
    ensures BlockChildren(GappedBody).value == [NoChildren, ChildArray([Span(None)]), ChildArray([Span(Some("a"))])]
  {
  }

  lemma GappedBodySegments()
    ensures BlockTexts([NoChildren, ChildArray([Span(None)]), ChildArray([Span(Some("a"))])]).Some?
    ensures BlockTexts([NoChildren, ChildArray([Span(None)]), ChildArray([Span(Some("a"))])]).value == ["", "", "a"]
  {
  }

  /**
   * The childless block and the span without text contribute empty
   * segments, the image entry contributes nothing, and the separators
   * between the three block segments remain.
   */
  lemma EmptySegmentsExample()
    ensures MakeExcerpt(Entries(GappedBody), DefaultLimit) == Returns("  a")
  {
    GappedBodyBlocks();
    GappedBodySegments();
  }

  /** A body with a `null` entry makes `makeExcerpt` throw. */
  lemma NullEntryThrows(pre: seq<Entry>, post: seq<Entry>, limit: nat)
    ensures MakeExcerpt(Entries(pre + [NullEntry] + post), limit) == Throws
  {
    var es := pre + [NullEntry] + post;
    assert es[|pre|] == NullEntry;
    ExcerptThrowsIff(es, limit);
  }
}
