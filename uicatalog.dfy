/**
 * The component catalogue (components/uiCatalog.js): groups of items with
 * slugs, the sidebar's view of them and the flat list of anchors whose hrefs are
 * `prefix + groupKey + "__" + slug`.
 *
 * The source's `label` fields are called `title` here, `label` being a Dafny keyword.
 */
module UiCatalog {
  import opened Optional

  datatype Item = Item(title: string, slug: string)

  datatype Group = Group(key: string, title: string, items: seq<Item>)

  /** An entry of `getSidebarGroupsFromCatalog`: a new object with the group's key, label and items. */
  datatype SidebarGroup = SidebarGroup(key: string, title: string, items: seq<Item>)

  /** An entry of `getAllComponentAnchors`. */
  datatype Anchor = Anchor(groupKey: string, groupTitle: string, title: string, slug: string, href: string)

  /** `uiComponentsCatalog`. */
  const Catalog: seq<Group> := [
    Group("layout-content", "Layout & Content", [
      Item("Container", "container"),
      Item("Columns", "columns"),
      Item("Grid", "grid"),
      Item("Layout Splitter", "layout-splitter"),
      Item("Typography", "typography"),
      Item("Images", "images"),
      Item("Links", "links"),
      Item("Dividers and <hr>", "dividers-hr"),
      Item("KBD", "kbd"),
      Item("Custom Scrollbar", "custom-scrollbar")
    ]),
    Group("base-components", "Base Components", [
      Item("Accordion", "accordion"),
      Item("Alerts", "alerts"),
      Item("Avatar", "avatar"),
      Item("Avatar Group", "avatar-group"),
      Item("Badge", "badge"),
      Item("Blockquote", "blockquote"),
      Item("Buttons", "buttons"),
      Item("Button Group", "button-group"),
      Item("Card", "card"),
      Item("Chat Bubbles", "chat-bubbles"),
      Item("Carousel", "carousel"),
      Item("Collapse", "collapse"),
      Item("Datepicker", "datepicker"),
      Item("Devices", "devices"),
      Item("Lists", "lists"),
      Item("List Group", "list-group"),
      Item("Legend Indicator", "legend-indicator"),
      Item("Progress", "progress"),
      Item("File Uploading Progress", "file-uploading-progress"),
      Item("Ratings", "ratings"),
      Item("Skeleton", "skeleton"),
      Item("Spinners", "spinners"),
      Item("Styled Icons", "styled-icons"),
      Item("Toasts", "toasts"),
      Item("Timeline", "timeline"),
      Item("Tree View", "tree-view")
    ]),
    Group("navigations", "Navigations", [
      Item("Navbar", "navbar"),
      Item("Mega Menu", "mega-menu"),
      Item("Navs", "navs"),
      Item("Tabs", "tabs"),
      Item("Sidebar New", "sidebar-new"),
      Item("Scrollspy", "scrollspy"),
      Item("Breadcrumb", "breadcrumb"),
      Item("Pagination", "pagination"),
      Item("Stepper", "stepper")
    ]),
    Group("basic-forms", "Basic Forms", [
      Item("Input", "input"),
      Item("Input Group", "input-group"),
      Item("Textarea", "textarea"),
      Item("File Input", "file-input"),
      Item("Checkbox", "checkbox"),
      Item("Radio", "radio"),
      Item("Switch", "switch"),
      Item("Select", "select"),
      Item("Range Slider", "range-slider"),
      Item("Color Picker", "color-picker"),
      Item("TimePicker", "timepicker")
    ]),
    Group("advanced-forms", "Advanced Forms", [
      Item("Advanced Select", "advanced-select"),
      Item("ComboBox", "combobox"),
      Item("SearchBox", "searchbox"),
      Item("Input Number", "input-number"),
      Item("Strong Password", "strong-password"),
      Item("Toggle Password", "toggle-password"),
      Item("Toggle Count", "toggle-count"),
      Item("Copy Markup", "copy-markup"),
      Item("PIN Input", "pin-input"),
      Item("Overlays", "overlays"),
      Item("Dropdown", "dropdown"),
      Item("Context Menu", "context-menu"),
      Item("Modal", "modal"),
      Item("Offcanvas (Drawer)", "offcanvas-drawer"),
      Item("Popover", "popover"),
      Item("Tooltip", "tooltip")
    ]),
    Group("tables", "Tables", [
      Item("basic table", "table-basic"),
      Item("sortable", "table-sortable"),
      Item("filtering", "table-filtering"),
      Item("editable", "table-editable")
    ])
  ]

  /** `getSidebarGroupsFromCatalog`: `catalog.map((g) => ({ key, label, items }))`. */
  function SidebarGroups(catalog: seq<Group>): seq<SidebarGroup>
  {
    seq(|catalog|, i requires 0 <= i < |catalog| => SidebarGroup(catalog[i].key, catalog[i].title, catalog[i].items))
  }

  /** One sidebar group per catalogue group, in the same order, with the same key, label and items. */
  lemma SidebarGroupsSpec(catalog: seq<Group>)
    ensures |SidebarGroups(catalog)| == |catalog|
    ensures forall i :: 0 <= i < |catalog| ==>
      var s := SidebarGroups(catalog)[i];
      Group(s.key, s.title, s.items) == catalog[i]
  {
  }

  /** The anchor `getAllComponentAnchors` pushes for one item of one group. */
  function MakeAnchor(prefix: string, g: Group, it: Item): Anchor
  {
    Anchor(g.key, g.title, it.title, it.slug, prefix + g.key + "__" + it.slug)
  }

  /** The anchors of one group, in item order. */
  function GroupAnchors(prefix: string, g: Group): seq<Anchor>
  {
    seq(|g.items|, j requires 0 <= j < |g.items| => MakeAnchor(prefix, g, g.items[j]))
  }

  /** All anchors: group after group, each group's items in order. */
  function AnchorsOf(prefix: string, catalog: seq<Group>): seq<Anchor>
  {
    if |catalog| == 0 then []
    else AnchorsOf(prefix, catalog[..|catalog| - 1]) + GroupAnchors(prefix, catalog[|catalog| - 1])
  }

  /** The number of items of all groups together. */
  function TotalItems(catalog: seq<Group>): nat
  {
    if |catalog| == 0 then 0 else TotalItems(catalog[..|catalog| - 1]) + |catalog[|catalog| - 1].items|
  }

  /** `getAllComponentAnchors(prefix = "#")`: the nested `forEach` loops pushing one anchor per item. */
  method GetAllComponentAnchors(prefix: Option<string>) returns (anchors: seq<Anchor>)
    ensures anchors == AnchorsOf(prefix.GetOr("#"), Catalog)
  {
    anchors := CollectAnchors(prefix.GetOr("#"), Catalog);
  }

  /** The loops of `getAllComponentAnchors` over a given catalogue. */
  method CollectAnchors(prefix: string, catalog: seq<Group>) returns (anchors: seq<Anchor>)
    ensures anchors == AnchorsOf(prefix, catalog)
  {
    anchors := [];
    var g := 0;
    while g < |catalog|
      invariant 0 <= g <= |catalog|
      invariant anchors == AnchorsOf(prefix, catalog[..g])
    {
      var group := catalog[g];
      var j := 0;
      while j < |group.items|
        invariant 0 <= j <= |group.items|
        invariant anchors == AnchorsOf(prefix, catalog[..g]) + GroupAnchors(prefix, group)[..j]
      {
        anchors := anchors + [MakeAnchor(prefix, group, group.items[j])];
        j := j + 1;
      }
      assert GroupAnchors(prefix, group)[..j] == GroupAnchors(prefix, group);
      assert catalog[..g + 1][..g] == catalog[..g];
      g := g + 1;
    }
    assert catalog[..g] == catalog;
  }

  /** There are exactly as many anchors as items in all groups. */
  lemma {:induction false} AnchorCount(prefix: string, catalog: seq<Group>)
    ensures |AnchorsOf(prefix, catalog)| == TotalItems(catalog)
  {
    if |catalog| > 0 {
      AnchorCount(prefix, catalog[..|catalog| - 1]);
    }
  }

  /**
   * Anchors are group-major: item `j` of group `g` is anchor number
   * `TotalItems(catalog[..g]) + j`, its fields copied from the group and the item
   * and its href `prefix + groupKey + "__" + slug`.
   */
  lemma {:induction false} AnchorAt(prefix: string, catalog: seq<Group>, g: int, j: int)
    requires 0 <= g < |catalog| && 0 <= j < |catalog[g].items|
    ensures TotalItems(catalog[..g]) + j < |AnchorsOf(prefix, catalog)|
    ensures var a := AnchorsOf(prefix, catalog)[TotalItems(catalog[..g]) + j];
      a.groupKey == catalog[g].key && a.groupTitle == catalog[g].title
      && a.title == catalog[g].items[j].title && a.slug == catalog[g].items[j].slug
      && a.href == prefix + catalog[g].key + "__" + catalog[g].items[j].slug
  {
    var n := |catalog| - 1;
    var init := catalog[..n];
    AnchorCount(prefix, init);
    AnchorCount(prefix, catalog);
    if g == n {
      assert catalog[..g] == init;
    } else {
      assert init[..g] == catalog[..g];
      AnchorAt(prefix, init, g, j);
    }
  }

  /** Anchor `k` comes from item `j` of group `g`. */
  predicate ComesFrom(catalog: seq<Group>, k: int, g: int, j: int)
  {
    0 <= g < |catalog| && 0 <= j < |catalog[g].items| && k == TotalItems(catalog[..g]) + j
  }

  /** Every anchor comes from some item of some group. */
  lemma {:induction false} AnchorOrigin(prefix: string, catalog: seq<Group>, k: int)
    requires 0 <= k < |AnchorsOf(prefix, catalog)|
    ensures exists g, j :: ComesFrom(catalog, k, g, j)
  {
    var n := |catalog| - 1;
    var init := catalog[..n];
    AnchorCount(prefix, init);
    if k < TotalItems(init) {
      AnchorOrigin(prefix, init, k);
      var g, j :| ComesFrom(init, k, g, j);
      assert init[..g] == catalog[..g];
      assert ComesFrom(catalog, k, g, j);
    } else {
      assert catalog[..n] == init;
      assert ComesFrom(catalog, k, n, k - TotalItems(init));
    }
  }

  /** Different items of a catalogue give different anchor positions. */
  lemma {:induction false} OffsetsIncrease(catalog: seq<Group>, g1: int, g2: int)
    requires 0 <= g1 < g2 <= |catalog|
    ensures TotalItems(catalog[..g1]) + |catalog[g1].items| <= TotalItems(catalog[..g2])
  {
    if g2 == g1 + 1 {
      assert catalog[..g2][..g1] == catalog[..g1];
    } else {
      OffsetsIncrease(catalog, g1, g2 - 1);
      assert catalog[..g2][..g2 - 1] == catalog[..g2 - 1];
    }
  }

  /** Where the key and the separator sit in an href. */
  lemma HrefLayout(prefix: string, k: string, s: string)
    ensures var h := prefix + k + "__" + s;
      h[|prefix| + |k|] == '_' && forall i :: 0 <= i < |k| ==> h[|prefix| + i] == k[i]
  {
  }

  /**
   * With no `_` in the group keys, an href determines its group key and slug:
   * the first `_` after the prefix ends the key.
   */
  lemma HrefInjective(prefix: string, k1: string, s1: string, k2: string, s2: string)
    requires '_' !in k1 && '_' !in k2
    requires prefix + k1 + "__" + s1 == prefix + k2 + "__" + s2
    ensures k1 == k2 && s1 == s2
  {
    var h1 := prefix + k1 + "__" + s1;
    var h2 := prefix + k2 + "__" + s2;
    HrefLayout(prefix, k1, s1);
    HrefLayout(prefix, k2, s2);
    assert |k1| == |k2|;
    assert k1 == h1[|prefix|..|prefix| + |k1|] == h2[|prefix|..|prefix| + |k2|] == k2;
    assert s1 == h1[|prefix| + |k1| + 2..] == h2[|prefix| + |k2| + 2..] == s2;
  }

  /** Group keys are distinct and free of `_`, and slugs are distinct within each group. */
  predicate WellFormed(catalog: seq<Group>)
  {
    (forall g1, g2 :: 0 <= g1 < g2 < |catalog| ==> catalog[g1].key != catalog[g2].key)
    && (forall g :: 0 <= g < |catalog| ==> '_' !in catalog[g].key)
    && (forall g, i, j :: 0 <= g < |catalog| && 0 <= i < j < |catalog[g].items| ==>
          catalog[g].items[i].slug != catalog[g].items[j].slug)
  }

  /** Over a well-formed catalogue, no two anchors share an href. */
  lemma AnchorHrefsDistinct(prefix: string, catalog: seq<Group>)
    requires WellFormed(catalog)
    ensures forall k1, k2 :: 0 <= k1 < k2 < |AnchorsOf(prefix, catalog)| ==>
      AnchorsOf(prefix, catalog)[k1].href != AnchorsOf(prefix, catalog)[k2].href
  {
    var anchors := AnchorsOf(prefix, catalog);
    forall k1, k2 | 0 <= k1 < k2 < |anchors| ensures anchors[k1].href != anchors[k2].href {
      AnchorPairDistinct(prefix, catalog, k1, k2);
    }
  }

  lemma AnchorPairDistinct(prefix: string, catalog: seq<Group>, k1: int, k2: int)
    requires WellFormed(catalog)
    requires 0 <= k1 < k2 < |AnchorsOf(prefix, catalog)|
    ensures AnchorsOf(prefix, catalog)[k1].href != AnchorsOf(prefix, catalog)[k2].href
  {
    var anchors := AnchorsOf(prefix, catalog);
    AnchorOrigin(prefix, catalog, k1);
    AnchorOrigin(prefix, catalog, k2);
    var g1, j1 :| ComesFrom(catalog, k1, g1, j1);
    var g2, j2 :| ComesFrom(catalog, k2, g2, j2);
    AnchorAt(prefix, catalog, g1, j1);
    AnchorAt(prefix, catalog, g2, j2);
    if g1 < g2 {
      OffsetsIncrease(catalog, g1, g2);
    } else if g2 < g1 {
      OffsetsIncrease(catalog, g2, g1);
    }
    if anchors[k1].href == anchors[k2].href {
      HrefInjective(prefix, catalog[g1].key, catalog[g1].items[j1].slug, catalog[g2].key, catalog[g2].items[j2].slug);
    }
  }

  /** No two items of the catalogue, in the same group or not, share a slug. */
  predicate SlugsDistinct(catalog: seq<Group>)
  {
    forall g1, i, g2, j :: 0 <= g1 < |catalog| && 0 <= i < |catalog[g1].items|
      && 0 <= g2 < |catalog| && 0 <= j < |catalog[g2].items| && (g1, i) != (g2, j)
      ==> catalog[g1].items[i].slug != catalog[g2].items[j].slug
  }

  /** Over a catalogue whose slugs are distinct, no two anchors share a slug. */
  lemma AnchorSlugsDistinct(prefix: string, catalog: seq<Group>)
    requires SlugsDistinct(catalog)
    ensures forall k1, k2 :: 0 <= k1 < k2 < |AnchorsOf(prefix, catalog)| ==>
      AnchorsOf(prefix, catalog)[k1].slug != AnchorsOf(prefix, catalog)[k2].slug
  {
    var anchors := AnchorsOf(prefix, catalog);
    forall k1, k2 | 0 <= k1 < k2 < |anchors| ensures anchors[k1].slug != anchors[k2].slug {
      AnchorOrigin(prefix, catalog, k1);
      AnchorOrigin(prefix, catalog, k2);
      var g1, j1 :| ComesFrom(catalog, k1, g1, j1);
      var g2, j2 :| ComesFrom(catalog, k2, g2, j2);
      AnchorAt(prefix, catalog, g1, j1);
      AnchorAt(prefix, catalog, g2, j2);
      if g1 < g2 {
        OffsetsIncrease(catalog, g1, g2);
      } else if g2 < g1 {
        OffsetsIncrease(catalog, g2, g1);
      }
    }
  }

  lemma SlugsDistinctInGroup0()
    ensures forall i, j :: 0 <= i < j < |Catalog[0].items| ==> Catalog[0].items[i].slug != Catalog[0].items[j].slug
  {
  }

  lemma SlugsDistinctInGroup1()
    ensures forall i, j :: 0 <= i < j < |Catalog[1].items| ==> Catalog[1].items[i].slug != Catalog[1].items[j].slug
  {
  }

  lemma SlugsDistinctInGroup2()
    ensures forall i, j :: 0 <= i < j < |Catalog[2].items| ==> Catalog[2].items[i].slug != Catalog[2].items[j].slug
  {
  }

  lemma SlugsDistinctInGroup3()
    ensures forall i, j :: 0 <= i < j < |Catalog[3].items| ==> Catalog[3].items[i].slug != Catalog[3].items[j].slug
  {
  }

  lemma SlugsDistinctInGroup4()
    ensures forall i, j :: 0 <= i < j < |Catalog[4].items| ==> Catalog[4].items[i].slug != Catalog[4].items[j].slug
  {
  }

  lemma SlugsDistinctInGroup5()
    ensures forall i, j :: 0 <= i < j < |Catalog[5].items| ==> Catalog[5].items[i].slug != Catalog[5].items[j].slug
  {
  }

  lemma SlugsDistinctAcross01()
    ensures forall i, j :: 0 <= i < |Catalog[0].items| && 0 <= j < |Catalog[1].items| ==> Catalog[0].items[i].slug != Catalog[1].items[j].slug
  {
  }

  lemma SlugsDistinctAcross02()
    ensures forall i, j :: 0 <= i < |Catalog[0].items| && 0 <= j < |Catalog[2].items| ==> Catalog[0].items[i].slug != Catalog[2].items[j].slug
  {
  }

  lemma SlugsDistinctAcross03()
    ensures forall i, j :: 0 <= i < |Catalog[0].items| && 0 <= j < |Catalog[3].items| ==> Catalog[0].items[i].slug != Catalog[3].items[j].slug
  {
  }

  lemma SlugsDistinctAcross04()
    ensures forall i, j :: 0 <= i < |Catalog[0].items| && 0 <= j < |Catalog[4].items| ==> Catalog[0].items[i].slug != Catalog[4].items[j].slug
  {
  }

  lemma SlugsDistinctAcross05()
    ensures forall i, j :: 0 <= i < |Catalog[0].items| && 0 <= j < |Catalog[5].items| ==> Catalog[0].items[i].slug != Catalog[5].items[j].slug
  {
  }

  lemma SlugsDistinctAcross12()
    ensures forall i, j :: 0 <= i < |Catalog[1].items| && 0 <= j < |Catalog[2].items| ==> Catalog[1].items[i].slug != Catalog[2].items[j].slug
  {
  }

  lemma SlugsDistinctAcross13()
    ensures forall i, j :: 0 <= i < |Catalog[1].items| && 0 <= j < |Catalog[3].items| ==> Catalog[1].items[i].slug != Catalog[3].items[j].slug
  {
  }

  lemma SlugsDistinctAcross14()
    ensures forall i, j :: 0 <= i < |Catalog[1].items| && 0 <= j < |Catalog[4].items| ==> Catalog[1].items[i].slug != Catalog[4].items[j].slug
  {
  }

  lemma SlugsDistinctAcross15()
    ensures forall i, j :: 0 <= i < |Catalog[1].items| && 0 <= j < |Catalog[5].items| ==> Catalog[1].items[i].slug != Catalog[5].items[j].slug
  {
  }

  lemma SlugsDistinctAcross23()
    ensures forall i, j :: 0 <= i < |Catalog[2].items| && 0 <= j < |Catalog[3].items| ==> Catalog[2].items[i].slug != Catalog[3].items[j].slug
  {
  }

  lemma SlugsDistinctAcross24()
    ensures forall i, j :: 0 <= i < |Catalog[2].items| && 0 <= j < |Catalog[4].items| ==> Catalog[2].items[i].slug != Catalog[4].items[j].slug
  {
  }

  lemma SlugsDistinctAcross25()
    ensures forall i, j :: 0 <= i < |Catalog[2].items| && 0 <= j < |Catalog[5].items| ==> Catalog[2].items[i].slug != Catalog[5].items[j].slug
  {
  }

  lemma SlugsDistinctAcross34()
    ensures forall i, j :: 0 <= i < |Catalog[3].items| && 0 <= j < |Catalog[4].items| ==> Catalog[3].items[i].slug != Catalog[4].items[j].slug
  {
  }

  lemma SlugsDistinctAcross35()
    ensures forall i, j :: 0 <= i < |Catalog[3].items| && 0 <= j < |Catalog[5].items| ==> Catalog[3].items[i].slug != Catalog[5].items[j].slug
  {
  }

  lemma SlugsDistinctAcross45()
    ensures forall i, j :: 0 <= i < |Catalog[4].items| && 0 <= j < |Catalog[5].items| ==> Catalog[4].items[i].slug != Catalog[5].items[j].slug
  {
  }

  /** The catalogue as shipped has six groups and 76 items. */
  lemma CatalogSize()
    ensures |Catalog| == 6 && TotalItems(Catalog) == 76
  {
    assert Catalog[..1][..0] == Catalog[..0];
    assert TotalItems(Catalog[..1]) == 10;
    assert Catalog[..2][..1] == Catalog[..1];
    assert TotalItems(Catalog[..2]) == 36;
    assert Catalog[..3][..2] == Catalog[..2];
    assert TotalItems(Catalog[..3]) == 45;
    assert Catalog[..4][..3] == Catalog[..3];
    assert TotalItems(Catalog[..4]) == 56;
    assert Catalog[..5][..4] == Catalog[..4];
    assert TotalItems(Catalog[..5]) == 72;
    assert Catalog[..6][..5] == Catalog[..5];
    assert TotalItems(Catalog[..6]) == 76;
    assert Catalog[..6] == Catalog;
  }

  /** The shipped catalogue's group keys are distinct and contain no `_`, and its slugs are distinct within each group. */
  lemma CatalogWellFormed()
    ensures WellFormed(Catalog)
  {
    CatalogKeysDistinct();
    CatalogKeysNoUnderscore();
    forall g | 0 <= g < |Catalog|
      ensures forall i, j :: 0 <= i < j < |Catalog[g].items| ==> Catalog[g].items[i].slug != Catalog[g].items[j].slug
    {
      SlugsDistinctWithin(g);
    }
  }

  /** Within each group of the catalogue the slugs are distinct. */
  lemma SlugsDistinctWithin(g: int)
    requires 0 <= g < |Catalog|
    ensures forall i, j :: 0 <= i < j < |Catalog[g].items| ==> Catalog[g].items[i].slug != Catalog[g].items[j].slug
  {
    if g == 0 { SlugsDistinctInGroup0(); }
    else if g == 1 { SlugsDistinctInGroup1(); }
    else if g == 2 { SlugsDistinctInGroup2(); }
    else if g == 3 { SlugsDistinctInGroup3(); }
    else if g == 4 { SlugsDistinctInGroup4(); }
    else { SlugsDistinctInGroup5(); }
  }

  lemma CatalogKeysDistinct()
    ensures forall g1, g2 :: 0 <= g1 < g2 < |Catalog| ==> Catalog[g1].key != Catalog[g2].key
  {
  }

  lemma CatalogKeysNoUnderscore()
    ensures forall g :: 0 <= g < |Catalog| ==> '_' !in Catalog[g].key
  {
    forall g | 0 <= g < |Catalog| ensures '_' !in Catalog[g].key {
      if g == 0 {
        assert Catalog[0].key == "layout-content";
      } else if g == 1 {
        assert Catalog[1].key == "base-components";
      } else if g == 2 {
        assert Catalog[2].key == "navigations";
      } else if g == 3 {
        assert Catalog[3].key == "basic-forms";
      } else if g == 4 {
        assert Catalog[4].key == "advanced-forms";
      } else {
        assert Catalog[5].key == "tables";
      }
    }
  }

  /** Two different groups of the catalogue share no slug. */
  lemma SlugsDistinctAcross(g1: int, g2: int)
    requires 0 <= g1 < g2 < |Catalog|
    ensures forall i, j :: 0 <= i < |Catalog[g1].items| && 0 <= j < |Catalog[g2].items| ==> Catalog[g1].items[i].slug != Catalog[g2].items[j].slug
  {
    if (g1, g2) == (0, 1) { SlugsDistinctAcross01(); }
    else if (g1, g2) == (0, 2) { SlugsDistinctAcross02(); }
    else if (g1, g2) == (0, 3) { SlugsDistinctAcross03(); }
    else if (g1, g2) == (0, 4) { SlugsDistinctAcross04(); }
    else if (g1, g2) == (0, 5) { SlugsDistinctAcross05(); }
    else if (g1, g2) == (1, 2) { SlugsDistinctAcross12(); }
    else if (g1, g2) == (1, 3) { SlugsDistinctAcross13(); }
    else if (g1, g2) == (1, 4) { SlugsDistinctAcross14(); }
    else if (g1, g2) == (1, 5) { SlugsDistinctAcross15(); }
    else if (g1, g2) == (2, 3) { SlugsDistinctAcross23(); }
    else if (g1, g2) == (2, 4) { SlugsDistinctAcross24(); }
    else if (g1, g2) == (2, 5) { SlugsDistinctAcross25(); }
    else if (g1, g2) == (3, 4) { SlugsDistinctAcross34(); }
    else if (g1, g2) == (3, 5) { SlugsDistinctAcross35(); }
    else { SlugsDistinctAcross45(); }
  }

  /** All 76 slugs of the shipped catalogue are distinct, across groups as well. */
  lemma CatalogSlugsDistinct()
    ensures SlugsDistinct(Catalog)
  {
    forall g1, i, g2, j | 0 <= g1 < |Catalog| && 0 <= i < |Catalog[g1].items|
      && 0 <= g2 < |Catalog| && 0 <= j < |Catalog[g2].items| && (g1, i) != (g2, j)
      ensures Catalog[g1].items[i].slug != Catalog[g2].items[j].slug
    {
      if g1 < g2 {
        SlugsDistinctAcross(g1, g2);
      } else if g2 < g1 {
        SlugsDistinctAcross(g2, g1);
      } else {
        SlugsDistinctWithin(g1);
      }
    }
  }

  /** The anchors of the shipped catalogue: 76 of them, with distinct slugs and distinct hrefs. */
  lemma CatalogAnchorsDistinct(prefix: string)
    ensures |AnchorsOf(prefix, Catalog)| == 76
    ensures forall k1, k2 :: 0 <= k1 < k2 < 76 ==>
      AnchorsOf(prefix, Catalog)[k1].slug != AnchorsOf(prefix, Catalog)[k2].slug
      && AnchorsOf(prefix, Catalog)[k1].href != AnchorsOf(prefix, Catalog)[k2].href
  {
    CatalogSize();
    AnchorCount(prefix, Catalog);
    CatalogWellFormed();
    CatalogSlugsDistinct();
    AnchorHrefsDistinct(prefix, Catalog);
    AnchorSlugsDistinct(prefix, Catalog);
  }
}
