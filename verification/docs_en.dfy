/** The English locale of the documentation site. */
module DocsEn {
  import opened DocsTheme

  /**
   * `makeNavBar()`: a drop-down group labelled with the build date whose three children all
   * live under `/zedio/`, then three plain links.
   */
  function MakeNavBar(lastUpdate: string): (nav: seq<NavItem>)
    ensures |nav| == 4
    ensures nav[0].NavGroup? && nav[0].text == "Zedio(" + lastUpdate + ")"
    ensures nav[0].activeMatch == "/zedio/" && |nav[0].items| == 3
    ensures forall k :: 0 <= k < 3 ==> StartsWith(nav[0].items[k].link, "/zedio/")
    ensures forall k :: 1 <= k < 4 ==> nav[k].NavLink?
  {
    [ NavGroup("Zedio(" + lastUpdate + ")",
        [ Link("About", "/zedio/overview"),
          Link("Install & Usage", "/zedio/install"),
          Link("Contributing", "/zedio/contributing") ],
        "/zedio/"),
      NavLink("Benchmark", "/zedio/benchmark"),
      NavLink("Runtime", "/user_guide/runtime"),
      NavLink("Async IO", "/user_guide/io") ]
  }

  /** `makeSidebarZEDIO()`: one expanded section with four relative links. */
  function MakeSidebarZedio(): (sections: seq<SidebarSection>)
    ensures |sections| == 1 && !sections[0].collapsed && RelativeLinks(sections)
    ensures SidebarLinks(sections) == ["overview", "install", "benchmark", "contributing"]
  {
    [ SidebarSection("Zedio", false,
        [ Link("Overview", "overview"),
          Link("Install & Usage", "install"),
          Link("Benchmark", "benchmark"),
          Link("Contributing", "contributing") ]) ]
  }

  /** `makeSidebarUserGuide()`: one expanded section with two relative links. */
  function MakeSidebarUserGuide(): (sections: seq<SidebarSection>)
    ensures |sections| == 1 && !sections[0].collapsed && RelativeLinks(sections)
    ensures SidebarLinks(sections) == ["runtime", "io"]
  {
    [ SidebarSection("User Guide", false,
        [ Link("Runtime", "runtime"),
          Link("Async IO", "io") ]) ]
  }

  /** The sidebar map: each key is the URL prefix it serves and is also the `base` of its links. */
  function SidebarMap(): (m: map<string, Sidebar>)
    ensures m.Keys == {"/zedio/", "/user_guide/"}
    ensures forall key :: key in m ==> m[key].base == key
  {
    map[ "/zedio/" := Sidebar("/zedio/", MakeSidebarZedio()),
         "/user_guide/" := Sidebar("/user_guide/", MakeSidebarUserGuide()) ]
  }

  /** The "edit this page" link: a GitHub edit URL with the page path substituted. */
  function SiteEditLink(): (e: EditLink)
    ensures StartsWith(e.pattern, "https://github.com/8sileus/zedio/edit/main/docs/")
  {
    EditLink("https://github.com/8sileus/zedio/edit/main/docs/:path", "Edit this page on Github")
  }

  function SiteFooter(): (f: Footer)
    ensures |f.message| > 0 && |f.copyright| > 0
  {
    Footer(
      "Released under the <a href=\"https://github.com/8sileus/zedio/blob/main/LICENSE\">MIT License</a>",
      "Copyright © 2024 <a href=\"https://github.com/8sileus\">8sileus</a>")
  }

  /** The `en` site config; the date comes from the ISO timestamp of the build. */
  function Config(isoTimestamp: string): (c: LocaleConfig)
    ensures c.lang == "en-US"
    ensures c.nav == MakeNavBar(LastUpdate(isoTimestamp))
    ensures c.sidebar == SidebarMap() && c.editLink == SiteEditLink() && c.footer == SiteFooter()
  {
    LocaleConfig("en-US", "Asynchronous Library for Applications in C++", MakeNavBar(LastUpdate(isoTimestamp)), SidebarMap(), SiteEditLink(), SiteFooter())
  }
}
