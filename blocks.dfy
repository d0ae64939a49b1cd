/**
 * The UI Blocks page (pages/BlocksLibrary.js): the `<section>` wrapper every
 * block snippet goes through, the slug-keyed registry of blocks and the map of
 * demos built from it, and the page state that selects one block by slug.
 *
 * The markup each block factory hands to the wrapper is a parameter
 * `inner: string -> string` from a block's slug to that markup; the JSX previews
 * are not modelled.
 */
module BlocksLibrary {
  import opened Optional
  import opened JsObjects
  import opened UiCatalog

  /** The class `wrapInSection` uses when it is given none. */
  const DefaultSectionClass := "min-h-[100px] p-6 " + "bg-gradient-to-br " + "from-blue-500/10 " + "to-gray-50"

  const SectionOpen := "<section class=\""
  const SectionMid := "\">\n"
  const SectionClose := "\n</section>"

  /** `wrapInSection(innerHtml, sectionClass)`, the class left out as `None`. */
  function WrapInSection(inner: string, sectionClass: Option<string>): string
  {
    SectionOpen + sectionClass.GetOr(DefaultSectionClass) + SectionMid + inner + SectionClose
  }

  /**
   * The wrapper is unconditional: whatever the inner markup, the result opens a
   * `<section>` with the given class (the default one when none is given) and
   * closes it, and it is longer than the markup it wraps; so wrapping an
   * already wrapped snippet nests a second section, and wrapping is not idempotent.
   */
  lemma WrapShape(inner: string, sectionClass: Option<string>)
    ensures var w := WrapInSection(inner, sectionClass);
      var cls := sectionClass.GetOr(DefaultSectionClass);
      SectionOpen + cls + SectionMid <= w
      && |w| == |inner| + |cls| + 30
      && w[|w| - |SectionClose|..] == SectionClose
      && w[|SectionOpen| + |cls| + |SectionMid|..|w| - |SectionClose|] == inner
    ensures sectionClass == None ==> SectionOpen + DefaultSectionClass + SectionMid <= WrapInSection(inner, sectionClass)
    ensures WrapInSection(inner, sectionClass) != inner
    ensures WrapInSection(WrapInSection(inner, sectionClass), sectionClass) != WrapInSection(inner, sectionClass)
  {
    var cls := sectionClass.GetOr(DefaultSectionClass);
    var head := SectionOpen + cls + SectionMid;
    var w := WrapInSection(inner, sectionClass);
    assert w == head + inner + SectionClose;
    assert |SectionOpen| == 16 && |SectionMid| == 3 && |SectionClose| == 11;
    assert w[..|head|] == head;
    assert w[|w| - |SectionClose|..] == SectionClose;
    assert w[|head|..|w| - |SectionClose|] == inner;
  }

  /** The first position of `c` in `s`, if any. */
  function IndexOf(s: string, c: char): (r: Option<nat>)
    ensures r.Some? ==> r.value < |s| && s[r.value] == c && forall k :: 0 <= k < r.value ==> s[k] != c
    ensures r.None? ==> forall k :: 0 <= k < |s| ==> s[k] != c
  {
    if |s| == 0 then None
    else if s[0] == c then Some(0)
    else match IndexOf(s[1..], c)
      case None => None
      case Some(k) => Some(k + 1)
  }

  /**
   * Reads a wrapped snippet back into its class and inner markup: the class runs
   * up to the first double quote after `<section class="`.
   */
  function Unwrap(w: string): Option<(string, string)>
  {
    if !(SectionOpen <= w) then None
    else
      var rest := w[|SectionOpen|..];
      match IndexOf(rest, '"')
      case None => None
      case Some(k) =>
        var body := rest[k..];
        if |body| >= |SectionMid| + |SectionClose| && body[..|SectionMid|] == SectionMid
           && body[|body| - |SectionClose|..] == SectionClose
        then Some((rest[..k], body[|SectionMid|..|body| - |SectionClose|]))
        else None
  }

  /** In `a + b`, a character absent from `a` that starts `b` is first found where `b` begins. */
  lemma IndexOfFirst(a: string, b: string, c: char)
    requires |b| > 0 && b[0] == c && forall k :: 0 <= k < |a| ==> a[k] != c
    ensures IndexOf(a + b, c) == Some(|a|)
  {
    assert (a + b)[|a|] == c;
    assert forall k :: 0 <= k < |a| ==> (a + b)[k] == a[k];
  }

  /** The part after the class: `">`, a newline, the markup, a newline and `</section>`, read back. */
  lemma BodyParts(inner: string)
    ensures var body := SectionMid + inner + SectionClose;
      |body| >= |SectionMid| + |SectionClose|
      && body[..|SectionMid|] == SectionMid
      && body[|body| - |SectionClose|..] == SectionClose
      && body[|SectionMid|..|body| - |SectionClose|] == inner
  {
    var body := SectionMid + inner + SectionClose;
    assert |SectionMid| == 3 && |SectionClose| == 11;
    assert body[..3] == SectionMid;
    assert body[|body| - 11..] == SectionClose;
    assert body[3..|body| - 11] == inner;
  }

  /** Unwrapping a snippet gives back its class and markup, for any class without a double quote. */
  lemma UnwrapWrap(inner: string, sectionClass: Option<string>)
    requires forall k :: 0 <= k < |sectionClass.GetOr(DefaultSectionClass)| ==> sectionClass.GetOr(DefaultSectionClass)[k] != '"'
    ensures Unwrap(WrapInSection(inner, sectionClass)) == Some((sectionClass.GetOr(DefaultSectionClass), inner))
  {
    var cls := sectionClass.GetOr(DefaultSectionClass);
    var body := SectionMid + inner + SectionClose;
    var rest := cls + body;
    var w := WrapInSection(inner, sectionClass);
    assert w == SectionOpen + rest;
    assert SectionOpen <= w;
    assert w[|SectionOpen|..] == rest;
    assert body[0] == '"';
    IndexOfFirst(cls, body, '"');
    assert rest[|cls|..] == body && rest[..|cls|] == cls;
    BodyParts(inner);
  }

  /** The default class has no double quote, so snippets wrapped with it can be read back. */
  lemma DefaultClassUnquoted()
    ensures forall k :: 0 <= k < |DefaultSectionClass| ==> DefaultSectionClass[k] != '"'
  {
    var a, b, c, d := "min-h-[100px] p-6 ", "bg-gradient-to-br ", "from-blue-500/10 ", "to-gray-50";
    assert forall k :: 0 <= k < |a| ==> a[k] != '"';
    assert forall k :: 0 <= k < |b| ==> b[k] != '"';
    assert forall k :: 0 <= k < |c| ==> c[k] != '"';
    assert forall k :: 0 <= k < |d| ==> d[k] != '"';
    assert DefaultSectionClass == a + b + c + d;
  }

  /** Two snippets wrapped with the default class are equal only if their markup is. */
  lemma WrapInjective(x: string, y: string)
    requires WrapInSection(x, None) == WrapInSection(y, None)
    ensures x == y
  {
    DefaultClassUnquoted();
    UnwrapWrap(x, None);
    UnwrapWrap(y, None);
  }

  /** An entry of `blocksList`: its label (here `title`) and slug. */
  datatype BlockEntry = BlockEntry(title: string, slug: string)

  /** `blocksList`, in its order. */
  const BlocksList: seq<BlockEntry> := [
    BlockEntry("Hero section", "hero"),
    BlockEntry("CTA section", "cta"),
    BlockEntry("Pricing Section", "pricing"),
    BlockEntry("Stats", "stats"),
    BlockEntry("Testimonial", "testimonial"),
    BlockEntry("Team sections", "team"),
    BlockEntry("FAQs", "faqs"),
    BlockEntry("Footers", "footers"),
    BlockEntry("Flayout Menues", "flyout-menus"),
    BlockEntry("Features section", "features"),
    BlockEntry("Bento grids", "bento-grids"),
    BlockEntry("Header section", "header"),
    BlockEntry("Newsletter Section", "newsletter"),
    BlockEntry("Blog section", "blog"),
    BlockEntry("Contact section", "contact"),
    BlockEntry("content section", "content"),
    BlockEntry("logo cloud", "logo-cloud"),
    BlockEntry("Banners", "banners"),
    BlockEntry("404 pages", "404"),
    BlockEntry("Landing pages", "landing"),
    BlockEntry("About pages", "about")
  ]

  predicate SlugsUnique(blocks: seq<BlockEntry>)
  {
    forall i, j :: 0 <= i < j < |blocks| ==> blocks[i].slug != blocks[j].slug
  }

  /** The registry has 21 blocks, with pairwise distinct, non-empty slugs. */
  lemma BlocksListWellFormed()
    ensures |BlocksList| == 21
    ensures SlugsUnique(BlocksList)
    ensures forall i :: 0 <= i < |BlocksList| ==> BlocksList[i].slug != "" && BlocksList[i].title != ""
  {
    BlocksListSlugsUnique();
  }

  lemma BlocksListSlugsUnique()
    ensures SlugsUnique(BlocksList)
  {
    SlugsUniqueWithin(0, 11);
    SlugsUniqueWithin(11, 21);
    SlugsUniqueAcross(0, 6, 11, 21);
    SlugsUniqueAcross(6, 11, 11, 21);
  }

  lemma SlugsUniqueWithin(lo: int, hi: int)
    requires (lo, hi) == (0, 11) || (lo, hi) == (11, 21)
    ensures forall i, j :: lo <= i < j < hi ==> BlocksList[i].slug != BlocksList[j].slug
  {
  }

  lemma SlugsUniqueAcross(lo1: int, hi1: int, lo2: int, hi2: int)
    requires (lo1, hi1, lo2, hi2) == (0, 6, 11, 21) || (lo1, hi1, lo2, hi2) == (6, 11, 11, 21)
    ensures forall i, j :: lo1 <= i < hi1 && lo2 <= j < hi2 ==> BlocksList[i].slug != BlocksList[j].slug
  {
  }

  /** The set of slugs of a list of blocks. */
  function Slugs(blocks: seq<BlockEntry>): set<string>
  {
    set i | 0 <= i < |blocks| :: blocks[i].slug
  }

  /** `useBlocksSidebarGroups`: a single "UI Blocks" group listing every block's label and slug, in order. */
  function BlocksSidebarGroups(blocks: seq<BlockEntry>): (r: seq<SidebarGroup>)
    ensures |r| == 1 && r[0].key == "ui-blocks" && r[0].title == "UI Blocks"
    ensures |r[0].items| == |blocks|
    ensures forall i :: 0 <= i < |blocks| ==> r[0].items[i] == Item(blocks[i].title, blocks[i].slug)
  {
    [SidebarGroup("ui-blocks", "UI Blocks", seq(|blocks|, i requires 0 <= i < |blocks| => Item(blocks[i].title, blocks[i].slug)))]
  }

  /** What a block factory returns, without the JSX preview: the snippet. */
  datatype Demo = Demo(html: string)

  /** `b.factory()`: every factory wraps its markup with the default section class. */
  function MakeDemo(b: BlockEntry, inner: string -> string): Demo
  {
    Demo(WrapInSection(inner(b.slug), None))
  }

  /** The demos map after the first `|blocks|` steps of the `forEach`; a later slug overwrites an earlier one. */
  function DemosOf(blocks: seq<BlockEntry>, inner: string -> string): map<string, Demo>
  {
    if |blocks| == 0 then map[]
    else DemosOf(blocks[..|blocks| - 1], inner)[blocks[|blocks| - 1].slug := MakeDemo(blocks[|blocks| - 1], inner)]
  }

  /** `useDemosMap`: start from an empty object and set `map[b.slug] = b.factory()` for each block in turn. */
  method BuildDemosMap(blocks: seq<BlockEntry>, inner: string -> string) returns (m: map<string, Demo>)
    ensures m == DemosOf(blocks, inner)
  {
    m := map[];
    for k := 0 to |blocks|
      invariant m == DemosOf(blocks[..k], inner)
    {
      assert blocks[..k + 1][..k] == blocks[..k];
      m := m[blocks[k].slug := MakeDemo(blocks[k], inner)];
    }
    assert blocks[..|blocks|] == blocks;
  }

  lemma SlugsSnoc(blocks: seq<BlockEntry>)
    requires |blocks| > 0
    ensures Slugs(blocks) == Slugs(blocks[..|blocks| - 1]) + {blocks[|blocks| - 1].slug}
  {
    var n := |blocks| - 1;
    var front := blocks[..n];
    forall s | s in Slugs(blocks) ensures s in Slugs(front) + {blocks[n].slug} {
      var i :| 0 <= i < |blocks| && blocks[i].slug == s;
      if i < n { assert front[i] == blocks[i]; }
    }
    forall s | s in Slugs(front) ensures s in Slugs(blocks) {
      var i :| 0 <= i < |front| && front[i].slug == s;
      assert blocks[i] == front[i];
    }
  }

  /** The demos map's keys are exactly the blocks' slugs. */
  lemma {:induction false} DemosKeys(blocks: seq<BlockEntry>, inner: string -> string)
    ensures DemosOf(blocks, inner).Keys == Slugs(blocks)
  {
    if |blocks| > 0 {
      DemosKeys(blocks[..|blocks| - 1], inner);
      SlugsSnoc(blocks);
    }
  }

  /**
   * Each slug maps to the demo of the last block with that slug, so with
   * distinct slugs every block finds its own demo.
   */
  lemma {:induction false} DemosLastWins(blocks: seq<BlockEntry>, inner: string -> string, i: int)
    requires 0 <= i < |blocks|
    requires forall j :: i < j < |blocks| ==> blocks[j].slug != blocks[i].slug
    ensures blocks[i].slug in DemosOf(blocks, inner)
    ensures DemosOf(blocks, inner)[blocks[i].slug] == MakeDemo(blocks[i], inner)
  {
    var n := |blocks| - 1;
    if i < n {
      var front := blocks[..n];
      assert front[i] == blocks[i];
      assert forall j :: i < j < |front| ==> front[j] == blocks[j];
      DemosLastWins(front, inner, i);
    }
  }

  /** Every demo in the map is the markup for its slug wrapped in a default section. */
  lemma {:induction false} DemosWrapped(blocks: seq<BlockEntry>, inner: string -> string)
    ensures forall s :: s in DemosOf(blocks, inner) ==> DemosOf(blocks, inner)[s].html == WrapInSection(inner(s), None)
  {
    if |blocks| > 0 {
      DemosWrapped(blocks[..|blocks| - 1], inner);
    }
  }

  /** `blocksList.find((b) => b.slug === slug)?.label`: the label of the first block with that slug. */
  function FindTitle(blocks: seq<BlockEntry>, slug: string): Option<string>
  {
    if |blocks| == 0 then None
    else if blocks[0].slug == slug then Some(blocks[0].title)
    else FindTitle(blocks[1..], slug)
  }

  lemma SlugsCons(blocks: seq<BlockEntry>)
    requires |blocks| > 0
    ensures Slugs(blocks) == {blocks[0].slug} + Slugs(blocks[1..])
  {
    forall s | s in Slugs(blocks) ensures s in {blocks[0].slug} + Slugs(blocks[1..]) {
      var i :| 0 <= i < |blocks| && blocks[i].slug == s;
      if i > 0 { assert blocks[1..][i - 1] == blocks[i]; }
    }
    forall s | s in Slugs(blocks[1..]) ensures s in Slugs(blocks) {
      var i :| 0 <= i < |blocks[1..]| && blocks[1..][i].slug == s;
      assert blocks[i + 1] == blocks[1..][i];
    }
  }

  lemma {:induction false} FindTitleFound(blocks: seq<BlockEntry>, slug: string)
    ensures FindTitle(blocks, slug).Some? <==> slug in Slugs(blocks)
    ensures FindTitle(blocks, slug).Some? ==>
              exists i :: 0 <= i < |blocks| && blocks[i].slug == slug && FindTitle(blocks, slug).value == blocks[i].title
                && forall j :: 0 <= j < i ==> blocks[j].slug != slug
  {
    if |blocks| > 0 {
      FindTitleFound(blocks[1..], slug);
      SlugsCons(blocks);
      if blocks[0].slug != slug && FindTitle(blocks, slug).Some? {
        var i :| 0 <= i < |blocks[1..]| && blocks[1..][i].slug == slug && FindTitle(blocks[1..], slug).value == blocks[1..][i].title
                 && forall j :: 0 <= j < i ==> blocks[1..][j].slug != slug;
        assert blocks[i + 1] == blocks[1..][i];
        assert forall j :: 1 <= j < i + 1 ==> blocks[j] == blocks[1..][j - 1];
      }
    }
  }

  lemma {:induction false} FindTitleUnique(blocks: seq<BlockEntry>, slug: string)
    requires SlugsUnique(blocks)
    ensures forall i :: 0 <= i < |blocks| && blocks[i].slug == slug ==> FindTitle(blocks, slug) == Some(blocks[i].title)
  {
    if |blocks| > 0 {
      assert SlugsUnique(blocks[1..]) by {
        forall i, j | 0 <= i < j < |blocks[1..]| ensures blocks[1..][i].slug != blocks[1..][j].slug {
          assert blocks[1..][i] == blocks[i + 1] && blocks[1..][j] == blocks[j + 1];
        }
      }
      FindTitleUnique(blocks[1..], slug);
      forall i | 0 <= i < |blocks| && blocks[i].slug == slug ensures FindTitle(blocks, slug) == Some(blocks[i].title) {
        if i > 0 {
          assert blocks[1..][i - 1] == blocks[i];
        }
      }
    }
  }

  /**
   * `find` answers exactly for the slugs of the list, with the label of the first
   * block that has the slug; with distinct slugs, that is the block's own label.
   */
  lemma FindTitleSpec(blocks: seq<BlockEntry>, slug: string)
    ensures FindTitle(blocks, slug).Some? <==> slug in Slugs(blocks)
    ensures FindTitle(blocks, slug).Some? ==>
              exists i :: 0 <= i < |blocks| && blocks[i].slug == slug && FindTitle(blocks, slug).value == blocks[i].title
                && forall j :: 0 <= j < i ==> blocks[j].slug != slug
    ensures SlugsUnique(blocks) ==>
              forall i :: 0 <= i < |blocks| && blocks[i].slug == slug ==> FindTitle(blocks, slug) == Some(blocks[i].title)
  {
    FindTitleFound(blocks, slug);
    if SlugsUnique(blocks) {
      FindTitleUnique(blocks, slug);
    }
  }

  /** `blocksList[0]?.slug || ""`. */
  function DefaultSlug(blocks: seq<BlockEntry>): string
  {
    if |blocks| > 0 && blocks[0].slug != "" then blocks[0].slug else ""
  }

  /** The page opens on the first block, `hero`. */
  lemma DefaultSlugIsHero()
    ensures DefaultSlug(BlocksList) == "hero" == BlocksList[0].slug
  {
  }

  /**
   * `readSlugFromUrl(defaultSlug)`: the `item` query value, `None` when it is
   * missing or the address cannot be read, and the default when it is missing or empty.
   */
  function ReadSlugFromUrl(item: Option<string>, defaultSlug: string): (r: string)
    ensures item.Some? && item.value != "" ==> r == item.value
    ensures item.None? || item.value == "" ==> r == defaultSlug
  {
    if item.Some? && item.value != "" then item.value else defaultSlug
  }

  /** What the block area shows: a card with a title and the snippet, or the "No block selected" placeholder. */
  datatype View = Card(title: string, code: Option<string>) | Placeholder

  /** The card's title: `find(…)?.label || "Block"`. */
  function CardTitle(blocks: seq<BlockEntry>, slug: string): string
  {
    match FindTitle(blocks, slug)
    case Some(t) => if t != "" then t else "Block"
    case None => "Block"
  }

  /** The block area for `selectedSlug`, the demos map consulted for its own keys only. */
  function ViewOf(demos: map<string, Demo>, blocks: seq<BlockEntry>, slug: string): View
  {
    match GetOwn(demos, slug)
    case Own(d) => Card(CardTitle(blocks, slug), Some(d.html))
    case _ => Placeholder
  }

  /**
   * The block area as the source computes it: `demosMap[selectedSlug]` on a
   * plain object, so a slug naming a member of `Object.prototype` finds that
   * member, which is truthy, and the card is shown with no snippet.
   */
  function ViewAsWritten(demos: map<string, Demo>, blocks: seq<BlockEntry>, slug: string): View
  {
    match Get(demos, slug)
    case Own(d) => Card(CardTitle(blocks, slug), Some(d.html))
    case Inherited(_) => Card(CardTitle(blocks, slug), None)
    case Undefined => Placeholder
  }

  /** The line under the page heading. */
  function Caption(blocks: seq<BlockEntry>, slug: string): string
  {
    match FindTitle(blocks, slug)
    case Some(t) => if t != "" then "Selected: " + t else "Select a block from the sidebar"
    case None => "Select a block from the sidebar"
  }

  /**
   * With distinct slugs, selecting a registered block shows its card, titled
   * with its label and holding its snippet, and the caption names the block.
   */
  lemma ViewOfRegistered(blocks: seq<BlockEntry>, inner: string -> string, i: int)
    requires SlugsUnique(blocks) && 0 <= i < |blocks| && blocks[i].title != ""
    ensures ViewOf(DemosOf(blocks, inner), blocks, blocks[i].slug)
         == Card(blocks[i].title, Some(WrapInSection(inner(blocks[i].slug), None)))
    ensures Caption(blocks, blocks[i].slug) == "Selected: " + blocks[i].title
  {
    DemosLastWins(blocks, inner, i);
    FindTitleSpec(blocks, blocks[i].slug);
  }

  /** Any slug that is not registered shows the placeholder, and the caption asks for a selection. */
  lemma ViewOfUnregistered(blocks: seq<BlockEntry>, inner: string -> string, slug: string)
    requires slug !in Slugs(blocks)
    ensures ViewOf(DemosOf(blocks, inner), blocks, slug) == Placeholder
    ensures Caption(blocks, slug) == "Select a block from the sidebar"
  {
    DemosKeys(blocks, inner);
    FindTitleSpec(blocks, slug);
  }

  /** A slug outside the registry, `constructor` (as in `?item=constructor`), is not a block. */
  lemma ConstructorIsNotABlock()
    ensures "constructor" !in Slugs(BlocksList)
  {
    assert forall i :: 0 <= i < |BlocksList| ==> BlocksList[i].slug != "constructor";
  }

  /**
   * As written, `?item=constructor` shows a card titled "Block" with no snippet,
   * where the own-key lookup shows the "No block selected" placeholder.
   */
  lemma ConstructorSlugAsWritten(inner: string -> string)
    ensures ViewAsWritten(DemosOf(BlocksList, inner), BlocksList, "constructor") == Card("Block", None)
    ensures ViewOf(DemosOf(BlocksList, inner), BlocksList, "constructor") == Placeholder
  {
    ConstructorIsNotABlock();
    DemosKeys(BlocksList, inner);
    FindTitleSpec(BlocksList, "constructor");
    assert "constructor" in PrototypeMembers;
  }

  /** The two lookups agree on every slug that is not a name inherited from `Object.prototype`. */
  lemma ViewAgreesOffPrototype(demos: map<string, Demo>, blocks: seq<BlockEntry>, slug: string)
    requires slug !in PrototypeMembers
    ensures ViewAsWritten(demos, blocks, slug) == ViewOf(demos, blocks, slug)
  {
  }

  /** A value the sidebar hands to `handleSelect`: a string, or anything else. */
  datatype SelectValue = Str(s: string) | NonString

  /** The page's state: the selected slug. */
  class BlocksPage {
    var selectedSlug: string

    /** `useState(readSlugFromUrl(defaultSlug))`, `item` being the address's query value. */
    constructor (item: Option<string>)
      ensures selectedSlug == ReadSlugFromUrl(item, DefaultSlug(BlocksList))
    {
      selectedSlug := if item.Some? && item.value != "" then item.value else DefaultSlug(BlocksList);
    }

    /** `handleSelect`: only a string changes the selection. */
    method HandleSelect(value: SelectValue)
      modifies this
      ensures value.Str? ==> selectedSlug == value.s
      ensures value.NonString? ==> selectedSlug == old(selectedSlug)
    {
      if value.Str? {
        selectedSlug := value.s;
      }
    }

    /** The `popstate` handler: read the slug from the address again. */
    method OnPopState(item: Option<string>)
      modifies this
      ensures selectedSlug == ReadSlugFromUrl(item, DefaultSlug(BlocksList))
    {
      selectedSlug := ReadSlugFromUrl(item, DefaultSlug(BlocksList));
    }

    /** What the block area shows for the current selection. */
    function Current(inner: string -> string): View
      reads this
    {
      ViewOf(DemosOf(BlocksList, inner), BlocksList, selectedSlug)
    }
  }
}
