/** The Chinese locale of the documentation site: the English structure under `/zh/`. */
module DocsZh {
  import opened DocsTheme
  import DocsEn

  /** `makeNavBar()` for `zh`: every link and the group's `activeMatch` begin with `/zh/`. */
  function MakeNavBar(lastUpdate: string): (nav: seq<NavItem>)
    ensures |nav| == 4
    ensures nav[0].NavGroup? && nav[0].text == "Zedio(" + lastUpdate + ")"
    ensures nav[0].activeMatch == "/zh/zedio/" && |nav[0].items| == 3
    ensures forall k :: 0 <= k < 3 ==> StartsWith(nav[0].items[k].link, "/zh/zedio/")
    ensures forall k :: 1 <= k < 4 ==> nav[k].NavLink? && StartsWith(nav[k].link, "/zh/")
  {
    [ NavGroup("Zedio(" + lastUpdate + ")",
        [ Link("关于", "/zh/zedio/overview"),
          Link("安装 & 使用", "/zh/zedio/install"),
          Link("参与贡献", "/zh/zedio/contributing") ],
        "/zh/zedio/"),
      NavLink("基准测试", "/zh/zedio/benchmark"),
      NavLink("Runtime", "/zh/user_guide/runtime"),
      NavLink("Async IO", "/zh/user_guide/io") ]
  }

  /** `makeSidebarZEDIO()` for `zh`: the English links in the English order, with Chinese labels. */
  function MakeSidebarZedio(): (sections: seq<SidebarSection>)
    ensures |sections| == 1 && !sections[0].collapsed && RelativeLinks(sections)
    ensures SidebarLinks(sections) == SidebarLinks(DocsEn.MakeSidebarZedio())
  {
    [ SidebarSection("Zedio", false,
        [ Link("关于", "overview"),
          Link("安装 & 使用", "install"),
          Link("基准测试", "benchmark"),
          Link("参与贡献", "contributing") ]) ]
  }

  /** `makeSidebarUserGuide()` for `zh`: the section is headed `API`; the links are the English ones. */
  function MakeSidebarUserGuide(): (sections: seq<SidebarSection>)
    ensures |sections| == 1 && !sections[0].collapsed && RelativeLinks(sections)
    ensures SidebarLinks(sections) == SidebarLinks(DocsEn.MakeSidebarUserGuide())
  {
    [ SidebarSection("API", false,
        [ Link("Runtime", "runtime"),
          Link("Async IO", "io") ]) ]
  }

  /** The sidebar map: each key is the URL prefix it serves and is also the `base` of its links. */
  function SidebarMap(): (m: map<string, Sidebar>)
    ensures m.Keys == {"/zh/zedio/", "/zh/user_guide/"}
    ensures forall key :: key in m ==> m[key].base == key
  {
    map[ "/zh/zedio/" := Sidebar("/zh/zedio/", MakeSidebarZedio()),
         "/zh/user_guide/" := Sidebar("/zh/user_guide/", MakeSidebarUserGuide()) ]
  }

  /** The "edit this page" link: a GitHub edit URL with the page path substituted. */
  function SiteEditLink(): (e: EditLink)
    ensures StartsWith(e.pattern, "https://github.com/8sileus/zedio/edit/main/docs/")
    ensures e.pattern == DocsEn.SiteEditLink().pattern
  {
    EditLink("https://github.com/8sileus/zedio/edit/main/docs/:path", "编辑此页面")
  }

  function SiteFooter(): (f: Footer)
    ensures f == DocsEn.SiteFooter()
    ensures |f.message| > 0 && |f.copyright| > 0
  {
    Footer(
      "Released under the <a href=\"https://github.com/8sileus/zedio/blob/main/LICENSE\">MIT License</a>",
      "Copyright © 2024 <a href=\"https://github.com/8sileus\">8sileus</a>")
  }

  /** The `zh` site config; the date comes from the ISO timestamp of the build. */
  function Config(isoTimestamp: string): (c: LocaleConfig)
    ensures c.lang == "zh-CN"
    ensures c.nav == MakeNavBar(LastUpdate(isoTimestamp))
    ensures c.sidebar == SidebarMap() && c.editLink == SiteEditLink() && c.footer == SiteFooter()
  {
    LocaleConfig("zh-CN", "C++异步运行时框架", MakeNavBar(LastUpdate(isoTimestamp)), SidebarMap(), SiteEditLink(), SiteFooter())
  }

  /** The `zh` drop-down group is the English one with `/zh` in front of its match and links. */
  lemma NavGroupMirrorsEnglish(lastUpdate: string)
    ensures var en := DocsEn.MakeNavBar(lastUpdate)[0];
      var zh := MakeNavBar(lastUpdate)[0];
      zh.activeMatch == "/zh" + en.activeMatch && |zh.items| == |en.items|
      && forall k :: 0 <= k < |zh.items| ==> zh.items[k].link == "/zh" + en.items[k].link
  {
    ZhPrefixed("/zedio/overview", "/zh/zedio/overview");
    ZhPrefixed("/zedio/install", "/zh/zedio/install");
    ZhPrefixed("/zedio/contributing", "/zh/zedio/contributing");
  }

  /** The three plain `zh` nav links are the English ones with `/zh` in front, in the same order. */
  lemma NavLinksMirrorEnglish(lastUpdate: string)
    ensures var en := DocsEn.MakeNavBar(lastUpdate);
      var zh := MakeNavBar(lastUpdate);
      |zh| == |en| && forall k :: 1 <= k < |zh| ==> zh[k].link == "/zh" + en[k].link
  {
    ZhPrefixed("/zedio/benchmark", "/zh/zedio/benchmark");
    ZhPrefixed("/user_guide/runtime", "/zh/user_guide/runtime");
    ZhPrefixed("/user_guide/io", "/zh/user_guide/io");
  }

  /** A `zh` link is its English counterpart with `/zh` in front: `zh` is `/zh`, then `en`. */
  lemma ZhPrefixed(en: string, zh: string)
    requires |zh| == |en| + 3 && zh[..3] == "/zh" && zh[3..] == en
    ensures zh == "/zh" + en
  {
    assert zh == zh[..3] + zh[3..];
  }
}
