/** The fixed lookup tables of the dashboard (chart size per zoom level,
    tip per foodie vibe) and the "View Menu" column of the data preview. */
module Lookups {
  import opened Cells
  import opened Tables
  import opened Text
  import opened Ranking

  // ---------------------------------------------------------------------
  // Zoom controls

  datatype ZoomLevel = VerySmall | Small | Medium | Large

  /** The radio options, in the order they are offered. */
  const ZoomOptions: seq<ZoomLevel> := [VerySmall, Small, Medium, Large]

  /** The option selected before the user touches the radio (`index=1`). */
  const DefaultZoom: ZoomLevel := ZoomOptions[1]

  /** `zoom_map`: the matplotlib figure size, in inches, per zoom level. */
  function FigSize(z: ZoomLevel): (int, int) {
    match z
    case VerySmall => (3, 2)
    case Small => (5, 3)
    case Medium => (8, 5)
    case Large => (12, 7)
  }

  /** Every option has a size, the default one is (5, 3), every figure is
      wider than tall, and each later option is strictly larger in both
      dimensions. */
  lemma {:induction false} ZoomSizesGrow()
    ensures DefaultZoom == Small && FigSize(DefaultZoom) == (5, 3)
    ensures forall z :: z in ZoomOptions
    ensures forall z :: FigSize(z).0 > FigSize(z).1 > 0
    ensures forall i, j :: 0 <= i < j < |ZoomOptions| ==>
              FigSize(ZoomOptions[i]).0 < FigSize(ZoomOptions[j]).0
              && FigSize(ZoomOptions[i]).1 < FigSize(ZoomOptions[j]).1
  {
    forall z ensures z in ZoomOptions {
      match z
      case VerySmall => assert ZoomOptions[0] == z;
      case Small => assert ZoomOptions[1] == z;
      case Medium => assert ZoomOptions[2] == z;
      case Large => assert ZoomOptions[3] == z;
    }
  }

  // ---------------------------------------------------------------------
  // Foodie vibe

  datatype Vibe = BudgetExplorer | LuxuryFeaster | HiddenGemHunter | CafeHopper

  /** The radio label of each vibe. */
  function VibeLabel(v: Vibe): string {
    match v
    case BudgetExplorer => "Budget Explorer"
    case LuxuryFeaster => "Luxury Feaster"
    case HiddenGemHunter => "Hidden Gem Hunter"
    case CafeHopper => "Caf\U{00E9} Hopper"
  }

  /** `recommend`: the tip text for each vibe. */
  function Recommend(v: Vibe): string {
    match v
    case BudgetExplorer => "Check out spots under \U{20B9}300 with 4.0+ rating. \U{1F4B3}"
    case LuxuryFeaster => "Explore fine-dines with 4.5+ rating and exotic cuisines. \U{1F451}"
    case HiddenGemHunter => "Sort by rating-to-cost ratio and uncover underrated stars. \U{1F50D}"
    case CafeHopper => "Filter for 'Caf\U{00E9}' types, low cost, cozy locations. \U{2615}"
  }

  /** The success banner: "Tip for", the vibe's label, then its tip. */
  function TipBanner(name: string, tip: string): (m: string)
    ensures Contains(m, name) && Contains(m, tip)
  {
    var head := "\U{1F4A1} Tip for " + name + ": ";
    var m := head + tip;
    InfixContained(m, |head| - |name| - 2, |head| - 2);
    assert m[|head| - |name| - 2..|head| - 2] == name;
    InfixContained(m, |head|, |m|);
    assert m[|head|..|m|] == tip;
    m
  }

  function TipMessage(v: Vibe): string {
    TipBanner(VibeLabel(v), Recommend(v))
  }

  // ---------------------------------------------------------------------
  // Menu links in the preview

  datatype MenuCell = MenuHref(url: string) | NotAvailable

  /** The "Menu Link" cell: for a present link, the link with every
      trailing '/' removed followed by "/menu"; "N/A" for a missing one. */
  function MenuLink(link: Option<string>): (m: MenuCell)
    ensures link.None? <==> m.NotAvailable?
    ensures link.Some? ==>
              var u, s := m.url, link.value;
              && |u| >= 5 && u[|u| - 5..] == "/menu"
              && |u| - 5 <= |s| && u[..|u| - 5] == s[..|u| - 5]
              && (|u| == 5 || u[|u| - 6] != '/')
              && (forall i :: |u| - 5 <= i < |s| ==> s[i] == '/')
  {
    match link
    case None => NotAvailable
    case Some(s) =>
      var base := TrimTrailing(s, '/');
      var u := base + "/menu";
      assert u[..|base|] == base && u[|base|..] == "/menu";
      MenuHref(u)
  }

  function Slashes(n: nat): string {
    seq(n, _ => '/')
  }

  /** Trailing slashes on a link do not change its menu URL. */
  lemma MenuLinkIgnoresTrailingSlashes(s: string, n: nat)
    ensures MenuLink(Some(s + Slashes(n))) == MenuLink(Some(s))
  {
    TrimSlashes(s, n);
  }

  lemma {:induction false} TrimSlashes(s: string, n: nat)
    ensures TrimTrailing(s + Slashes(n), '/') == TrimTrailing(s, '/')
  {
    if n == 0 {
      assert s + Slashes(0) == s;
    } else {
      TrimSlashes(s, n - 1);
      assert s + Slashes(n) == (s + Slashes(n - 1)) + ['/'];
      TrimTrailingAppend(s + Slashes(n - 1), '/');
    }
  }

  /** The data preview: the first ten rows. Without a `link` column they
      are shown as they are; with one they get a menu cell each and are
      narrowed to rest_name, loc, dine_rating and Cost (RS), a KeyError
      naming whichever of those is absent. */
  datatype Preview =
    | Plain(rows: seq<Row>)
    | WithMenus(rows: seq<Row>, menus: seq<MenuCell>)
    | PreviewFailed(error: Error)

  function DataPreview(t: Table): (p: Preview)
    ensures Link !in t.columns <==> p.Plain?
    ensures p.Plain? || p.WithMenus? ==> p.rows == t.rows[..Min(10, |t.rows|)]
    ensures p.WithMenus? <==> Link in t.columns && forall c :: c in [RestName, Loc, DineRating, Cost] ==> c in t.columns
    ensures p.PreviewFailed? ==> p.error == KeyError(Missing(t, [RestName, Loc, DineRating, Cost]))
    ensures p.WithMenus? ==>
              && |p.menus| == |p.rows|
              && (forall i :: 0 <= i < |p.rows| ==> p.menus[i] == MenuLink(p.rows[i].link))
  {
    var head := t.rows[..Min(10, |t.rows|)];
    if Link !in t.columns then Plain(head)
    else
      match Project(t, head, [RestName, Loc, DineRating, Cost])
      case Ok(rows) => WithMenus(rows, seq(|rows|, i requires 0 <= i < |rows| => MenuLink(rows[i].link)))
      case Err(e) => PreviewFailed(e)
  }

  /** A preview row shows "N/A" exactly when its link is missing. */
  lemma PreviewMenuAvailable(t: Table, i: int)
    requires DataPreview(t).WithMenus? && 0 <= i < |DataPreview(t).rows|
    ensures DataPreview(t).menus[i].NotAvailable? <==> t.rows[i].link.None?
  {
  }
}
