/**
 * The VitePress default-theme values the documentation site configures: nav items,
 * sidebar sections, the sidebar map and the per-locale site config.
 */
module DocsTheme {
  /** A `{ text, link }` entry. */
  datatype Link = Link(text: string, link: string)

  /** A top-level nav entry: a plain link, or a drop-down group of links with an `activeMatch`. */
  datatype NavItem =
    | NavLink(text: string, link: string)
    | NavGroup(text: string, items: seq<Link>, activeMatch: string)

  /** A sidebar section: a heading, its `collapsed` flag and its item links. */
  datatype SidebarSection = SidebarSection(text: string, collapsed: bool, items: seq<Link>)

  /** One value of the sidebar map: the `base` prefixed to the relative item links, and the sections. */
  datatype Sidebar = Sidebar(base: string, sections: seq<SidebarSection>)

  datatype EditLink = EditLink(pattern: string, text: string)

  datatype Footer = Footer(message: string, copyright: string)

  datatype LocaleConfig = LocaleConfig(
    lang: string,
    description: string,
    nav: seq<NavItem>,
    sidebar: map<string, Sidebar>,
    editLink: EditLink,
    footer: Footer)

  predicate StartsWith(s: string, prefix: string) { |prefix| <= |s| && s[..|prefix|] == prefix }

  /**
   * `new Date().toISOString().slice(0, 10)`: the date part of the ISO timestamp, which is
   * passed in because it comes from the clock. `slice` clamps to the string's length.
   */
  function LastUpdate(isoTimestamp: string): (date: string)
    ensures |date| == if |isoTimestamp| < 10 then |isoTimestamp| else 10
    ensures StartsWith(isoTimestamp, date)
  {
    if |isoTimestamp| < 10 then isoTimestamp else isoTimestamp[..10]
  }

  /** Every link in a sidebar section is relative (resolved against the map entry's `base`). */
  predicate RelativeLinks(sections: seq<SidebarSection>)
  {
    forall i, j :: 0 <= i < |sections| && 0 <= j < |sections[i].items| ==>
      sections[i].items[j].link == [] || sections[i].items[j].link[0] != '/'
  }

  /** The relative links of all sections, in order. */
  function SidebarLinks(sections: seq<SidebarSection>): seq<string>
  {
    if sections == [] then []
    else
      seq(|sections[0].items|, j requires 0 <= j < |sections[0].items| => sections[0].items[j].link)
      + SidebarLinks(sections[1..])
  }
}
