/**
 * The program's entry rule: the contents-page address chosen on the command
 * line selects the site by its prefix, and with it how many chapters are
 * fetched at once.
 */
module Dispatch {
  import opened Strings
  import opened Noveler
  import Hjwzw
  import Piaotia
  import UUkanshu
  import Czbooks
  import Novel543
  import Qbtr

  datatype Site = Hjwzw | Piaotia | UUkanshu | Czbooks | Novel543 | Qbtr

  /** The address prefix that selects each site. */
  function Prefix(site: Site): string {
    match site
    case Hjwzw => "https://tw.hjwzw.com/"
    case Piaotia => "https://www.piaotia.com/"
    case UUkanshu => "https://tw.uukanshu.com/"
    case Czbooks => "https://czbooks.net/"
    case Novel543 => "https://www.novel543.com/"
    case Qbtr => "https://www.qbtr.cc/"
  }

  /** How many chapters of each site are downloaded at once. */
  function Limit(site: Site): (n: nat)
    ensures n > 0
    ensures n == 2 <==> site == Novel543
  {
    if site == Novel543 then 2 else 10
  }

  /** The site's `Display` name, the directory its books are saved under. */
  function SiteName(site: Site): string {
    match site
    case Hjwzw => Hjwzw.SiteName
    case Piaotia => Piaotia.SiteName
    case UUkanshu => UUkanshu.SiteName
    case Czbooks => Czbooks.SiteName
    case Novel543 => Novel543.SiteName
    case Qbtr => Qbtr.SiteName
  }

  /** `get_novel`: the first prefix the address starts with, in the source's order; `None` is the "Not support" panic. */
  function GetNovel(url: string): Option<Site> {
    if StartsWith(url, Prefix(Hjwzw)) then Some(Hjwzw)
    else if StartsWith(url, Prefix(Piaotia)) then Some(Piaotia)
    else if StartsWith(url, Prefix(UUkanshu)) then Some(UUkanshu)
    else if StartsWith(url, Prefix(Czbooks)) then Some(Czbooks)
    else if StartsWith(url, Prefix(Novel543)) then Some(Novel543)
    else if StartsWith(url, Prefix(Qbtr)) then Some(Qbtr)
    else None
  }

  /** Two prefixes of the same address: the shorter is a prefix of the longer. */
  lemma BothPrefixes(url: string, p: string, q: string)
    requires StartsWith(url, p) && StartsWith(url, q) && |p| <= |q|
    ensures StartsWith(q, p)
  {
    assert q[..|p|] == url[..|q|][..|p|] == url[..|p|];
  }

  /** No site's prefix starts another's. */
  lemma PrefixesIndependent(s: Site, t: Site)
    requires s != t
    ensures !StartsWith(Prefix(t), Prefix(s))
  {
    var p, q := Prefix(s), Prefix(t);
    if |p| <= |q| {
      var k := if p[8] != q[8] then 8 else if p[11] != q[11] then 11 else 12;
      assert p[k] != q[k];
      assert q[..|p|][k] == q[k];
    }
  }

  /** The prefixes are pairwise disjoint: no address selects two sites. */
  lemma PrefixesDisjoint(url: string, s: Site, t: Site)
    requires s != t
    ensures !(StartsWith(url, Prefix(s)) && StartsWith(url, Prefix(t)))
  {
    if StartsWith(url, Prefix(s)) && StartsWith(url, Prefix(t)) {
      if |Prefix(s)| <= |Prefix(t)| {
        BothPrefixes(url, Prefix(s), Prefix(t));
        PrefixesIndependent(s, t);
      } else {
        BothPrefixes(url, Prefix(t), Prefix(s));
        PrefixesIndependent(t, s);
      }
    }
  }

  /** An address selects a site exactly when it starts with that site's prefix, whatever the order of the tests. */
  lemma GetNovelSelects(url: string, site: Site)
    ensures GetNovel(url) == Some(site) <==> StartsWith(url, Prefix(site))
  {
    forall t | t != site ensures !(StartsWith(url, Prefix(site)) && StartsWith(url, Prefix(t))) {
      PrefixesDisjoint(url, site, t);
    }
  }

  /** Any other address is refused. */
  lemma GetNovelRefuses(url: string)
    ensures GetNovel(url) == None <==> forall s: Site :: !StartsWith(url, Prefix(s))
  {
  }

  /** UU看書 is accepted only under its "tw." host. */
  lemma UUkanshuMainHostRefused(url: string)
    requires StartsWith(url, "https://www.uukanshu.com/")
    ensures GetNovel(url) == None
  {
    var w := "https://www.uukanshu.com/";
    forall s: Site ensures !StartsWith(url, Prefix(s)) {
      var p := Prefix(s);
      var k := if p[8] != w[8] then 8 else 12;
      assert p[k] != w[k];
      assert url[..|p|][k] == url[k] == url[..|w|][k];
    }
  }

  /** Different sites save into different directories. */
  lemma SiteNamesDistinct(s: Site, t: Site)
    requires s != t
    ensures SiteName(s) != SiteName(t)
  {
  }
}
