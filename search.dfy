/** The search bar of the shop pages: the project root computed from the
    page's path, root-relative links turned into real ones, the alias tables
    a query is matched against, and where a search leads. */
module Search {
  import opened Wrappers
  import opened Text
  import Seqs

  // ---------------------------------------------------------------- paths

  /** At index `i` the path has the segment `/store` or `/sale`, followed by
      a slash or the end of the path. */
  predicate SegAt(p: string, i: nat) {
    || (i + 6 <= |p| && p[i..i + 6] == "/store" && (i + 6 == |p| || p[i + 6] == '/'))
    || (i + 5 <= |p| && p[i..i + 5] == "/sale" && (i + 5 == |p| || p[i + 5] == '/'))
  }

  /** The first such segment from `from` on; the lazy prefix of the pattern
      stops at the first one. */
  function FirstSeg(p: string, from: nat): (r: Option<nat>)
    requires from <= |p|
    ensures r.Some? ==> from <= r.value < |p| && SegAt(p, r.value)
    ensures forall k | from <= k <= |p| && (r.None? || k < r.value) :: !SegAt(p, k)
    decreases |p| - from
  {
    if from == |p| then None
    else if SegAt(p, from) then Some(from)
    else FirstSeg(p, from + 1)
  }

  predicate EndsWithSlash(s: string) {
    s != [] && s[|s| - 1] == '/'
  }

  /** The index of the last slash. */
  function LastSlash(p: string): (r: Option<nat>)
    ensures r.Some? ==> r.value < |p| && p[r.value] == '/' && forall k | r.value < k < |p| :: p[k] != '/'
    ensures r.None? ==> forall k | 0 <= k < |p| :: p[k] != '/'
  {
    if p == [] then None
    else if p[|p| - 1] == '/' then Some(|p| - 1)
    else LastSlash(p[..|p| - 1])
  }

  /** The project root of a path: what precedes the first `/store` or
      `/sale` segment, with a slash added unless it ends in one; without such
      a segment, the path itself when it ends in a slash, else its directory. */
  function ProjectRoot(p: string): (r: string)
    ensures r <= p
    ensures (exists k | 0 <= k < |p| :: p[k] == '/') ==> EndsWithSlash(r)
    ensures FirstSeg(p, 0).Some? ==>
      var i := FirstSeg(p, 0).value;
      && EndsWithSlash(r) && i <= |r| <= i + 1
      && (|r| == i <==> EndsWithSlash(p[..i]))
    ensures FirstSeg(p, 0).None? && (exists k | 0 <= k < |p| :: p[k] == '/') ==>
      EndsWithSlash(r) && forall k | |r| <= k < |p| :: p[k] != '/'
    ensures (forall k | 0 <= k < |p| :: p[k] != '/') ==> r == p
  {
    match FirstSeg(p, 0)
    case Some(i) =>
      var pre := p[..i];
      if EndsWithSlash(pre) then pre
      else
        assert p[i] == '/';
        assert pre + "/" == p[..i + 1];
        pre + "/"
    case None =>
      if EndsWithSlash(p) then p
      else
        match LastSlash(p)
        case Some(k) => p[..k + 1]
        case None => p
  }

  /** A segment in a prefix of `p` that ends in a slash is a segment of `p`
      ending before that slash. */
  lemma SegInPrefix(p: string, r: string, j: nat)
    requires r <= p && EndsWithSlash(r) && SegAt(r, j)
    ensures SegAt(p, j) && j + 5 < |r|
  {
    assert r == p[..|r|];
    if j + 6 <= |r| && r[j..j + 6] == "/store" && (j + 6 == |r| || r[j + 6] == '/') {
      assert r[j + 5] == 'e';
      assert p[j..j + 6] == r[j..j + 6];
    } else {
      assert r[j + 4] == 'e';
      assert p[j..j + 5] == r[j..j + 5];
    }
  }

  /** The root of a root is itself: pages at the root resolve links the same way. */
  lemma RootIsFixedPoint(p: string)
    requires exists k | 0 <= k < |p| :: p[k] == '/'
    ensures ProjectRoot(ProjectRoot(p)) == ProjectRoot(p)
  {
    var r := ProjectRoot(p);
    var s := FirstSeg(r, 0);
    if s.Some? {
      SegInPrefix(p, r, s.value);
      assert false;
    }
  }

  /** Drops the leading slashes. */
  function StripLeadingSlashes(s: string): (r: string)
    ensures r == [] || r[0] != '/'
    ensures |r| <= |s| && r == s[|s| - |r|..]
    ensures Seqs.Filter(r, NotSlash) == Seqs.Filter(s, NotSlash)
  {
    if s != [] && s[0] == '/' then StripLeadingSlashes(s[1..]) else s
  }

  predicate NotSlash(c: char) {
    c != '/'
  }

  ghost predicate NoDoubleSlash(s: string) {
    forall i | 0 <= i < |s| - 1 :: !(s[i] == '/' && s[i + 1] == '/')
  }

  /** Every run of two or more slashes replaced by one. */
  function Collapse(s: string): (r: string)
    ensures NoDoubleSlash(r)
    ensures s == [] <==> r == []
    ensures s != [] ==> r[0] == s[0]
  {
    if s == [] then []
    else if |s| >= 2 && s[0] == '/' && s[1] == '/' then Collapse(s[1..])
    else
      var rest := Collapse(s[1..]);
      var r := [s[0]] + rest;
      assert forall i | 1 <= i < |r| :: r[i] == rest[i - 1];
      r
  }

  /** Collapsing reads the path left to right: a slash right after a slash
      is dropped, every other character is kept. With `Collapse([]) == []`
      this determines `Collapse` on every path. */
  lemma {:induction false} CollapseSnoc(s: string, c: char)
    ensures Collapse(s + [c]) == if c == '/' && EndsWithSlash(s) then Collapse(s) else Collapse(s) + [c]
  {
    if s == [] {
      assert [] + [c] == [c];
    } else if |s| == 1 {
      assert s + [c] == [s[0], c];
      assert [s[0], c][1..] == [c];
    } else {
      var t := s + [c];
      assert t[1..] == s[1..] + [c];
      assert t[0] == s[0] && t[1] == s[1];
      CollapseSnoc(s[1..], c);
      assert EndsWithSlash(s[1..]) == EndsWithSlash(s);
      if !(s[0] == '/' && s[1] == '/') {
        assert Collapse(t) == [s[0]] + Collapse(s[1..] + [c]);
        assert Collapse(s) == [s[0]] + Collapse(s[1..]);
        assert [s[0]] + (Collapse(s[1..]) + [c]) == ([s[0]] + Collapse(s[1..])) + [c];
      }
    }
  }

  /** A path without double slashes is left as it is. */
  lemma {:induction false} CollapseIdempotent(s: string)
    requires NoDoubleSlash(s)
    ensures Collapse(s) == s
  {
    if s != [] {
      CollapseIdempotent(s[1..]);
      assert s == [s[0]] + s[1..];
    }
  }

  /** Collapsing drops slashes only. */
  lemma {:induction false} CollapseKeepsText(s: string)
    ensures Seqs.Filter(Collapse(s), NotSlash) == Seqs.Filter(s, NotSlash)
  {
    if s != [] {
      CollapseKeepsText(s[1..]);
      if !(|s| >= 2 && s[0] == '/' && s[1] == '/') {
        var r := [s[0]] + Collapse(s[1..]);
        assert r[0] == s[0] && r[1..] == Collapse(s[1..]);
      }
    }
  }

  /** `toRealUrl`: the root of the page's path joined with the root-relative
      path, without its leading slashes, and runs of slashes collapsed. */
  function ToRealUrl(pathname: string, rel: string): string {
    Collapse(ProjectRoot(pathname) + StripLeadingSlashes(rel))
  }

  /** The real link has no double slash and holds the root's and the
      relative path's other characters, in that order. */
  lemma RealUrlShape(pathname: string, rel: string)
    ensures NoDoubleSlash(ToRealUrl(pathname, rel))
    ensures Seqs.Filter(ToRealUrl(pathname, rel), NotSlash) == Seqs.Filter(ProjectRoot(pathname), NotSlash) + Seqs.Filter(rel, NotSlash)
  {
    var root, clean := ProjectRoot(pathname), StripLeadingSlashes(rel);
    CollapseKeepsText(root + clean);
    Seqs.FilterAppend(root, clean, NotSlash);
  }

  // ---------------------------------------------------------------- aliases

  /** `norm`: trimmed and lower-cased. */
  function Norm(s: string): string {
    Lower(Trim(s))
  }

  datatype AliasEntry = AliasEntry(url: string, names: seq<string>)

  /** A name matches when, normalised, it is not empty and contains the
      normalised query or is contained in it. */
  predicate NameMatches(name: string, nq: string) {
    var na := Norm(name);
    na != [] && (Contains(na, nq) || Contains(nq, na))
  }

  predicate EntryMatches(e: AliasEntry, nq: string) {
    exists j | 0 <= j < |e.names| :: NameMatches(e.names[j], nq)
  }

  /** The first entry from `from` on with a matching name. */
  function FirstEntry(aliases: seq<AliasEntry>, nq: string, from: nat): (r: Option<nat>)
    requires from <= |aliases|
    ensures r.Some? ==> from <= r.value < |aliases| && EntryMatches(aliases[r.value], nq)
    ensures forall k | from <= k < |aliases| && (r.None? || k < r.value) :: !EntryMatches(aliases[k], nq)
    decreases |aliases| - from
  {
    if from == |aliases| then None
    else if EntryMatches(aliases[from], nq) then Some(from)
    else
      var r := FirstEntry(aliases, nq, from + 1);
      assert forall k | from <= k < |aliases| && (r.None? || k < r.value) :: !EntryMatches(aliases[k], nq) by {
        forall k | from <= k < |aliases| && (r.None? || k < r.value) ensures !EntryMatches(aliases[k], nq) {
          if k == from {
            assert aliases[k] == aliases[from];
          }
        }
      }
      r
  }

  /** The url of the first entry, in list order, that has a matching name;
      none for the empty query. */
  function AliasLookup(aliases: seq<AliasEntry>, q: string): (r: Option<string>)
    ensures q == [] ==> r.None?
    ensures r.None? && q != [] ==> forall k | 0 <= k < |aliases| :: !EntryMatches(aliases[k], Norm(q))
    ensures r.Some? ==> exists i | 0 <= i < |aliases| ::
      && aliases[i].url == r.value && EntryMatches(aliases[i], Norm(q))
      && forall k | 0 <= k < i :: !EntryMatches(aliases[k], Norm(q))
  {
    if q == [] then None
    else
      var i := FirstEntry(aliases, Norm(q), 0);
      if i.Some? then Some(aliases[i.value].url) else None
  }

  /** The first matching entry is the one the lookup names. */
  lemma FirstEntryIs(aliases: seq<AliasEntry>, nq: string, i: nat)
    requires i < |aliases| && EntryMatches(aliases[i], nq)
    requires forall k | 0 <= k < i :: !EntryMatches(aliases[k], nq)
    ensures FirstEntry(aliases, nq, 0) == Some(i)
  {
  }

  /** The inner loop of `findByAliases`: whether some name of the entry matches. */
  method MatchEntry(e: AliasEntry, nq: string) returns (b: bool)
    ensures b == EntryMatches(e, nq)
  {
    var names := e.names;
    for j := 0 to |names|
      invariant forall m | 0 <= m < j :: !NameMatches(names[m], nq)
    {
      if NameMatches(names[j], nq) {
        return true;
      }
      forall m | 0 <= m < j + 1 ensures !NameMatches(names[m], nq) {
        if m == j {
          assert names[m] == names[j];
        }
      }
    }
    return false;
  }

  /** With the first two entries missing and the third matching, the lookup
      names the third entry's url. */
  lemma LookupThird(aliases: seq<AliasEntry>, q: string)
    requires q != [] && 3 <= |aliases|
    requires !EntryMatches(aliases[0], Norm(q)) && !EntryMatches(aliases[1], Norm(q)) && EntryMatches(aliases[2], Norm(q))
    ensures AliasLookup(aliases, q) == Some(aliases[2].url)
  {
    var nq := Norm(q);
    assert FirstEntry(aliases, nq, 2) == Some(2);
    assert FirstEntry(aliases, nq, 1) == Some(2);
    assert FirstEntry(aliases, nq, 0) == Some(2);
  }

  /** `findByAliases`: the entries and their names in order, the first match returning. */
  method FindByAliases(aliases: seq<AliasEntry>, q: string) returns (url: Option<string>)
    ensures url == AliasLookup(aliases, q)
  {
    if q == [] {
      return None;
    }
    var nq := Norm(q);
    for i := 0 to |aliases|
      invariant forall k | 0 <= k < i :: !EntryMatches(aliases[k], nq)
    {
      var hit := MatchEntry(aliases[i], nq);
      if hit {
        FirstEntryIs(aliases, nq, i);
        return Some(aliases[i].url);
      }
      forall k | 0 <= k < i + 1 ensures !EntryMatches(aliases[k], nq) {
        if k == i {
          assert aliases[k] == aliases[i];
        }
      }
    }
    assert FirstEntry(aliases, nq, 0).None?;
    return None;
  }

  const CATEGORY_ALIASES: seq<AliasEntry> := [
    AliasEntry("Home.html", ["home", "홈", "메인"]),
    AliasEntry("store.html", ["all category", "all", "전체", "카테고리", "상품", "스토어", "store", "shop", "상점"]),
    AliasEntry("sale.html", ["sale", "세일", "할인"]),
    AliasEntry("best.html", ["best", "베스트", "인기"]),
    AliasEntry("event.html", ["event", "이벤트"]),
    AliasEntry("Gallery.html", ["gallery", "갤러리"]),
    AliasEntry("Minigame.html", ["mini game", "minigame", "게임"]),
    AliasEntry("service.html", ["고객센터", "cs", "문의", "service", "customer service"]),
    AliasEntry("What.html", ["what", "what is moltiz", "소개", "몰티즈", "moltiz", "about"])
  ]

  const PRODUCT_ALIASES: seq<AliasEntry> := [
    AliasEntry("store/Blanket.html", ["blanket", "담요", "moltiz blanket", "이불"]),
    AliasEntry("store/MolBag.html", ["bag", "가방", "토트", "몰티즈 가방", "moltiz bag"]),
    AliasEntry("store/MolKey.html", ["keyring", "키링", "몰티즈 키링", "moltiz keyring", "key ring", "mol key"]),
    AliasEntry("store/MalKey.html", ["maltiz keyring", "말티즈 키링", "maltiz key ring", "mal key"]),
    AliasEntry("store/MolMemo.html", ["memo", "메모", "포스트잇", "post-it", "moltiz memo"]),
    AliasEntry("store/MousePad.html", ["mousepad", "마우스패드", "mouse pad", "moltiz mousepad"]),
    AliasEntry("store/LogisticMol.html", ["logistic", "러기지", "네임택", "몰티즈 러기지", "moltiz logistic", "tag", "mol logistic"]),
    AliasEntry("store/LogisticMal.html", ["maltiz logistic", "말티즈 러기지", "name tag", "mal logistic"]),
    AliasEntry("store/FigureFirst.html", ["random figure1", "figure1", "랜덤 피규어1", "랜덤피규어1"]),
    AliasEntry("store/FigureSecond.html", ["random figure2", "figure2", "랜덤 피규어2", "랜덤피규어2"]),
    AliasEntry("sale/BagMolSale.html", ["sale bag", "세일 가방", "할인가 가방"]),
    AliasEntry("sale/BlanketBSale.html", ["sale blanket", "세일 담요", "할인가 담요"]),
    AliasEntry("sale/LogiticMalSale.html", ["sale logistic mal", "세일 러기지 말", "네임택 세일 mal"]),
    AliasEntry("sale/LogiticMolSale.html", ["sale logistic mol", "세일 러기지 몰", "네임택 세일 mol"])
  ]

  /** The link of a server product, `%ID%` of the detail template replaced by the id. */
  const DETAIL_URL_PREFIX: string := "product.html?id="
  const FALLBACK_LIST_URL: string := "store.html"

  // ---------------------------------------------------------------- routing

  /** Where a search leads: an alert for the blank query, or a page. */
  datatype Nav = AlertEmpty | Go(href: string)

  /** `routeSearch` over the category table `cats` and the product table
      `prods`. `pathname` is the current page's path; `single` is the id of the
      only product of a successful server search, none when the search failed
      or found another number of products; `encode` stands for
      `encodeURIComponent`, `encodeId` for its use on an id. */
  function Route(cats: seq<AliasEntry>, prods: seq<AliasEntry>, query: string, pathname: string,
                 single: Option<int>, encode: string -> string, encodeId: int -> string): (nav: Nav)
    ensures nav == AlertEmpty <==> Trim(query) == []
    ensures Trim(query) != [] && AliasLookup(cats, Trim(query)).Some? ==>
      nav == Go(ToRealUrl(pathname, AliasLookup(cats, Trim(query)).value))
    ensures Trim(query) != [] && AliasLookup(cats, Trim(query)).None? && AliasLookup(prods, Trim(query)).Some? ==>
      nav == Go(ToRealUrl(pathname, AliasLookup(prods, Trim(query)).value))
    ensures Trim(query) != [] && AliasLookup(cats, Trim(query)).None? && AliasLookup(prods, Trim(query)).None? ==>
      && (single.Some? && single.value != 0 ==> nav == Go(ToRealUrl(pathname, DETAIL_URL_PREFIX + encodeId(single.value))))
      && (single.None? || single.value == 0 ==> nav == Go(ToRealUrl(pathname, FALLBACK_LIST_URL + "?q=" + encode(Trim(query)))))
    ensures nav.Go? ==> NoDoubleSlash(nav.href)
  {
    var q := Trim(query);
    if q == [] then AlertEmpty
    else
      var cat := AliasLookup(cats, q);
      if cat.Some? then Go(ToRealUrl(pathname, cat.value))
      else
        var prod := AliasLookup(prods, q);
        if prod.Some? then Go(ToRealUrl(pathname, prod.value))
        else if single.Some? && single.value != 0 then Go(ToRealUrl(pathname, DETAIL_URL_PREFIX + encodeId(single.value)))
        else Go(ToRealUrl(pathname, FALLBACK_LIST_URL + "?q=" + encode(q)))
  }

  /** The search of the site, over its two alias tables. */
  function RouteSearch(query: string, pathname: string, single: Option<int>,
                       encode: string -> string, encodeId: int -> string): Nav {
    Route(CATEGORY_ALIASES, PRODUCT_ALIASES, query, pathname, single, encode, encodeId)
  }

  // ---------------------------------------------------------------- the sale aliases

  /** A name shares no character in the right places with the query: it neither
      starts nor ends with white space, the query's first character is not in
      the name and the name's first character, lowered, is not in the query. */
  predicate CharsApart(name: string, nq: string) {
    && name != [] && !IsSpace(name[0]) && !IsSpace(name[|name| - 1])
    && nq != [] && nq[0] !in name && LowerChar(name[0]) !in nq
  }

  lemma NoMatchByChars(name: string, nq: string)
    requires CharsApart(name, nq) && !('A' <= nq[0] <= 'Z') && !('a' <= nq[0] <= 'z')
    ensures !NameMatches(name, nq)
  {
    TrimUnchanged(name);
    var na := Norm(name);
    assert na[0] == LowerChar(name[0]);
    assert forall i | 0 <= i < |na| :: na[i] == LowerChar(name[i]) && name[i] != nq[0];
    assert nq[0] !in na;
    NotContainsByChar(na, nq);
    NotContainsByChar(nq, na);
  }

  /** An entry none of whose names shares characters with the query does not match it. */
  lemma EntryMissesByChars(e: AliasEntry, nq: string)
    requires nq != [] && !('A' <= nq[0] <= 'Z') && !('a' <= nq[0] <= 'z')
    requires forall j | 0 <= j < |e.names| :: CharsApart(e.names[j], nq)
    ensures !EntryMatches(e, nq)
  {
    forall j | 0 <= j < |e.names| ensures !NameMatches(e.names[j], nq) {
      NoMatchByChars(e.names[j], nq);
    }
  }

  /** The query `세일 가방` of the sale bag page, character by character. */
  predicate SaleBagText(q: string) {
    |q| == 5 && q[0] == '세' && q[1] == '일' && q[2] == ' ' && q[3] == '가' && q[4] == '방'
  }

  lemma SaleBagTextIs(q: string)
    ensures SaleBagText(q) <==> q == "세일 가방"
  {
    if SaleBagText(q) {
      assert q == "세일 가방";
    }
  }

  lemma SaleBagTrimmed(q: string)
    requires SaleBagText(q)
    ensures q != [] && Trim(q) == q
  {
    TrimUnchanged(q);
  }

  /** The query of the sale bag page is its own normal form. */
  lemma SaleBagQuery(q: string)
    requires SaleBagText(q)
    ensures Trim(q) == q && Norm(q) == q
  {
    assert |q| == 5 && !IsSpace(q[0]) && !IsSpace(q[4]);
    TrimUnchanged(q);
    forall i | 0 <= i < |q| ensures LowerChar(q[i]) == q[i] {
      assert !('A' <= q[i] <= 'Z');
    }
    assert Lower(q) == q;
  }

  /** The characters checked by `CharsApart`, for the sale bag query. */
  lemma FirstCharsApart(name: string, nq: string)
    requires SaleBagText(nq)
    requires name in ["all category", "all", "전체", "카테고리", "상품", "스토어", "store", "shop", "상점"]
    ensures CharsApart(name, nq)
  {
  }

  lemma HomeEntryMisses(nq: string)
    requires SaleBagText(nq)
    ensures !EntryMatches(CATEGORY_ALIASES[0], nq)
  {
    var e := CATEGORY_ALIASES[0];
    assert e.names == ["home", "홈", "메인"];
    assert CharsApart(e.names[0], nq) && CharsApart(e.names[1], nq) && CharsApart(e.names[2], nq);
    EntryMissesByChars(e, nq);
  }

  lemma StoreEntryMisses(nq: string)
    requires SaleBagText(nq)
    ensures !EntryMatches(CATEGORY_ALIASES[1], nq)
  {
    var e := CATEGORY_ALIASES[1];
    var names := ["all category", "all", "전체", "카테고리", "상품", "스토어", "store", "shop", "상점"];
    assert e.names == names;
    forall j | 0 <= j < |names| ensures CharsApart(names[j], nq) {
      FirstCharsApart(names[j], nq);
    }
    EntryMissesByChars(e, nq);
  }

  /** The Korean name of the sale category occurs at the start of the query. */
  lemma SaleEntryMatches(q: string)
    requires SaleBagText(q)
    ensures EntryMatches(CATEGORY_ALIASES[2], q)
  {
    var e := CATEGORY_ALIASES[2];
    SaleName();
    SaleNameMatches(e.names[1], q);
  }

  lemma SaleName()
    ensures |CATEGORY_ALIASES[2].names| == 3 && CATEGORY_ALIASES[2].names[1] == "세일"
  {
  }

  lemma SaleNameMatches(sale: string, q: string)
    requires sale == "세일" && SaleBagText(q)
    ensures NameMatches(sale, q)
  {
    assert |sale| == 2 && !IsSpace(sale[0]) && !IsSpace(sale[1]);
    TrimUnchanged(sale);
    assert Lower(sale) == sale by {
      assert Lower(sale)[0] == sale[0] && Lower(sale)[1] == sale[1];
    }
    assert q[0..2] == sale by {
      assert q[0] == sale[0] && q[1] == sale[1];
    }
    assert OccursAt(q, sale, 0);
    ContainsAt(q, sale, 0);
  }

  /** The home and store categories miss the normalised sale bag query. */
  lemma NormMisses(q: string)
    requires SaleBagText(q)
    ensures !EntryMatches(CATEGORY_ALIASES[0], Norm(q)) && !EntryMatches(CATEGORY_ALIASES[1], Norm(q))
  {
    SaleBagQuery(q);
    HomeEntryMisses(q);
    StoreEntryMisses(q);
  }

  /** The sale category matches the normalised sale bag query. */
  lemma NormMatches(q: string)
    requires SaleBagText(q)
    ensures EntryMatches(CATEGORY_ALIASES[2], Norm(q))
  {
    SaleBagQuery(q);
    SaleEntryMatches(q);
  }

  /** The category lookup of the sale bag query finds the sale category. */
  lemma SaleBagCategory(q: string)
    requires SaleBagText(q)
    ensures AliasLookup(CATEGORY_ALIASES, q) == Some("sale.html")
  {
    NormMisses(q);
    NormMatches(q);
    LookupThird(CATEGORY_ALIASES, q);
    SaleUrl();
  }

  lemma SaleUrl()
    ensures CATEGORY_ALIASES[2].url == "sale.html"
  {
  }

  /** The category aliases come first, and the category `sale` matches every
      query containing its Korean name: the query listed for the sale bag
      page leads to the sale category instead of that page. */
  lemma SaleBagAliasShadowed(q: string, pathname: string, single: Option<int>, encode: string -> string, encodeId: int -> string)
    requires SaleBagText(q)
    ensures RouteSearch(q, pathname, single, encode, encodeId) == Go(ToRealUrl(pathname, "sale.html"))
  {
    SaleBagTrimmed(q);
    SaleBagCategory(q);
    RouteToCategory(CATEGORY_ALIASES, PRODUCT_ALIASES, q, pathname, single, encode, encodeId, "sale.html");
  }

  /** The sale bag query is a name of the sale bag page among the product aliases. */
  lemma SaleBagListed(q: string)
    requires SaleBagText(q)
    ensures q in PRODUCT_ALIASES[10].names && PRODUCT_ALIASES[10].url == "sale/BagMolSale.html"
  {
    assert PRODUCT_ALIASES[10].names[1] == q;
  }

  /** A trimmed query the category lookup finds goes to that category. */
  lemma RouteToCategory(cats: seq<AliasEntry>, prods: seq<AliasEntry>, q: string, pathname: string,
                        single: Option<int>, encode: string -> string, encodeId: int -> string, url: string)
    requires q != [] && Trim(q) == q && AliasLookup(cats, q) == Some(url)
    ensures Route(cats, prods, q, pathname, single, encode, encodeId) == Go(ToRealUrl(pathname, url))
  {
  }
}
