/**
 * The banner form of the front page: the form state, the effect that turns
 * it into the banner's query, the address and Markdown snippet built from
 * that query, and the repository field's validator.
 *
 * The `application/x-www-form-urlencoded` serialiser is a parameter: the
 * model compares pair lists, and the text is whatever the serialiser makes
 * of them.
 */
module BannerForm {
  import opened Options
  import opened SearchParams
  import CodeUnits
  import Decimal
  import Text

  /** The providers the form offers. */
  datatype Provider = GitHub

  /** The provider's display name, as listed in the select box. */
  function ProviderName(p: Provider): string {
    match p
    case GitHub => "GitHub"
  }

  /** The state of the GitHub provider's form. */
  datatype Form = Form(
    repository: string,
    imageUrl: string,
    imageHeight: int,
    title: string,
    showTitle: bool,
    subtitle: string,
    showSubtitle: bool
  )

  /** The state the form starts in. */
  const InitialForm := Form(
    "tailwindcss/tailwindcss",
    "https://github.com/tailwindlabs/tailwindcss/raw/master/.github/logo-dark.svg",
    64,
    "", false,
    "", true
  )

  /** The fixed prefix of every address the page shows. */
  const Host := "https://raphtalia.ariesclark.com/"

  // ---------------------------------------------------------------------------
  // The query effect, step by step as the source performs it

  /** What the effect first stores for a title-like field: "null" when hidden, the text, or "default" for empty text. */
  function StoredValue(show: bool, text: string): string {
    if show then (if text != "" then text else "default") else "null"
  }

  /** Sets a title-like field, then deletes it again when it reads "default". */
  function SetTextField(q: Params, name: string, show: bool, text: string): Params {
    var q' := Set(q, name, StoredValue(show, text));
    if Get(q', name) == Some("default") then Delete(q', name) else q'
  }

  /** The image parameters the effect sets when an image address is given. */
  function ImageStage(imageUrl: string, imageHeight: int): Params {
    if imageUrl != "" then Set(Set([], "image", imageUrl), "imageHeight", Decimal.IntToString(imageHeight))
    else []
  }

  /** The effect's query before it is sorted. */
  function UnsortedQuery(f: Form): Params {
    var q := ImageStage(f.imageUrl, f.imageHeight);
    SetTextField(SetTextField(q, "title", f.showTitle, f.title), "subtitle", f.showSubtitle, f.subtitle)
  }

  /** The query the effect builds from the form, before serialisation. */
  function BuildQuery(f: Form): Params {
    Sort(UnsortedQuery(f))
  }

  // ---------------------------------------------------------------------------
  // The same query, described field by field

  /**
   * A title-like field's final value: "null" when hidden; absent when shown
   * but empty or literally "default"; otherwise the text.
   */
  function FieldValue(show: bool, text: string): Option<string> {
    if !show then Some("null")
    else if text == "" || text == "default" then None
    else Some(text)
  }

  function OptionalPair(name: string, v: Option<string>): Params {
    match v
    case None => []
    case Some(x) => [(name, x)]
  }

  /** Both image parameters when an image address is given, neither otherwise. */
  function ImagePairs(f: Form): Params {
    if f.imageUrl != "" then [("image", f.imageUrl), ("imageHeight", Decimal.IntToString(f.imageHeight))]
    else []
  }

  /** The query as a list of optional fields in name order: image, imageHeight, subtitle, title. */
  function ReferenceQuery(f: Form): Params {
    ImagePairs(f)
    + OptionalPair("subtitle", FieldValue(f.showSubtitle, f.subtitle))
    + OptionalPair("title", FieldValue(f.showTitle, f.title))
  }

  predicate IsBannerName(n: string) {
    n == "image" || n == "imageHeight" || n == "subtitle" || n == "title"
  }

  // ---------------------------------------------------------------------------
  // Proof that the effect builds the reference query

  /** Setting an absent name appends it; the drop that follows undoes that exactly when the value is "default". */
  lemma SetThenDropAbsent(q: Params, name: string, v: string)
    requires !Has(q, name)
    ensures
      var q' := Set(q, name, v);
      (if Get(q', name) == Some("default") then Delete(q', name) else q')
        == if v == "default" then q else q + [(name, v)]
  {
    var q' := Set(q, name, v);
    assert q' == q + [(name, v)];
    if v == "default" {
      DeleteNothing(q, name);
    }
  }

  /** The value stored reads "default" exactly when the field's final value is absent. */
  lemma StoredValueMeaning(show: bool, text: string)
    ensures StoredValue(show, text) == "default" <==> FieldValue(show, text).None?
    ensures FieldValue(show, text).Some? ==> FieldValue(show, text).value == StoredValue(show, text)
  {
  }

  /** Setting an absent field appends it; dropping it again exactly when it reads "default" gives the field's final value. */
  lemma SetTextFieldAbsent(q: Params, name: string, show: bool, text: string)
    requires !Has(q, name)
    ensures SetTextField(q, name, show, text) == q + OptionalPair(name, FieldValue(show, text))
  {
    SetThenDropAbsent(q, name, StoredValue(show, text));
    StoredValueMeaning(show, text);
  }

  /** With an image address, the two image parameters are set in that order; without one, nothing. */
  lemma ImageStageIsPairs(imageUrl: string, imageHeight: int)
    ensures ImageStage(imageUrl, imageHeight)
      == if imageUrl != "" then [("image", imageUrl), ("imageHeight", Decimal.IntToString(imageHeight))] else []
  {
    if imageUrl != "" {
      var q1 := Set([], "image", imageUrl);
      assert q1 == [("image", imageUrl)];
      assert !Has(q1, "imageHeight");
    }
  }

  /** The image pairs carry neither title-like name. */
  lemma ImagePairsNames(f: Form)
    ensures !Has(ImagePairs(f), "title") && !Has(ImagePairs(f), "subtitle")
  {
  }

  lemma TitleStage(f: Form)
    ensures SetTextField(ImagePairs(f), "title", f.showTitle, f.title)
      == ImagePairs(f) + OptionalPair("title", FieldValue(f.showTitle, f.title))
  {
    ImagePairsNames(f);
    SetTextFieldAbsent(ImagePairs(f), "title", f.showTitle, f.title);
  }

  lemma SubtitleStage(f: Form)
    ensures
      var q := ImagePairs(f) + OptionalPair("title", FieldValue(f.showTitle, f.title));
      SetTextField(q, "subtitle", f.showSubtitle, f.subtitle)
        == q + OptionalPair("subtitle", FieldValue(f.showSubtitle, f.subtitle))
  {
    var t := OptionalPair("title", FieldValue(f.showTitle, f.title));
    ImagePairsNames(f);
    HasAppend(ImagePairs(f), t, "subtitle");
    SetTextFieldAbsent(ImagePairs(f) + t, "subtitle", f.showSubtitle, f.subtitle);
  }

  /** Before sorting, the effect holds the image pairs, then title, then subtitle. */
  lemma UnsortedIsConcatenation(f: Form)
    ensures UnsortedQuery(f)
      == ImagePairs(f)
         + OptionalPair("title", FieldValue(f.showTitle, f.title))
         + OptionalPair("subtitle", FieldValue(f.showSubtitle, f.subtitle))
  {
    ImageStageIsPairs(f.imageUrl, f.imageHeight);
    TitleStage(f);
    SubtitleStage(f);
  }

  /** The four names in code-unit order. */
  lemma BannerNameOrder()
    ensures CodeUnits.Less("image", "imageHeight")
    ensures CodeUnits.Less("image", "subtitle") && CodeUnits.Less("image", "title")
    ensures CodeUnits.Less("imageHeight", "subtitle") && CodeUnits.Less("imageHeight", "title")
    ensures CodeUnits.Less("subtitle", "title")
  {
    assert "image" + "Height" == "imageHeight";
    CodeUnits.LessProperPrefix("image", "Height");
    CodeUnits.LessByFirstChar("image", "subtitle");
    CodeUnits.LessByFirstChar("image", "title");
    CodeUnits.LessByFirstChar("imageHeight", "subtitle");
    CodeUnits.LessByFirstChar("imageHeight", "title");
    CodeUnits.LessByFirstChar("subtitle", "title");
  }

  /** Rank of a banner name in code-unit order. */
  function Rank(n: string): int {
    if n == "image" then 0 else if n == "imageHeight" then 1 else if n == "subtitle" then 2 else 3
  }

  lemma RankOrder(x: string, y: string)
    requires IsBannerName(x) && IsBannerName(y) && Rank(x) < Rank(y)
    ensures !CodeUnits.Less(y, x)
  {
    BannerNameOrder();
    CodeUnits.LessAsymmetric(x, y);
  }

  /** A list of banner names with strictly increasing rank is sorted and has no repeated name. */
  lemma RankedIsSorted(q: Params)
    requires forall i :: 0 <= i < |q| ==> IsBannerName(q[i].0)
    requires forall i, j :: 0 <= i < j < |q| ==> Rank(q[i].0) < Rank(q[j].0)
    ensures Sorted(q) && DistinctNames(q)
  {
    forall i, j | 0 <= i < j < |q|
      ensures !CodeUnits.Less(q[j].0, q[i].0)
    {
      RankOrder(q[i].0, q[j].0);
    }
  }

  lemma ReferenceRanked(f: Form)
    ensures forall i :: 0 <= i < |ReferenceQuery(f)| ==> IsBannerName(ReferenceQuery(f)[i].0)
    ensures forall i, j :: 0 <= i < j < |ReferenceQuery(f)| ==> Rank(ReferenceQuery(f)[i].0) < Rank(ReferenceQuery(f)[j].0)
  {
  }

  lemma OptionalPairFilter(name: string, v: Option<string>, n: string)
    ensures WithName(OptionalPair(name, v), n) == if n == name then OptionalPair(name, v) else []
  {
  }

  /** The effect's query is the reference query: the fields in name order, each present exactly as the rules say. */
  lemma BuildQueryIsReference(f: Form)
    ensures BuildQuery(f) == ReferenceQuery(f)
  {
    var img := ImagePairs(f);
    var t := OptionalPair("title", FieldValue(f.showTitle, f.title));
    var u := OptionalPair("subtitle", FieldValue(f.showSubtitle, f.subtitle));
    UnsortedIsConcatenation(f);
    ReferenceRanked(f);
    RankedIsSorted(ReferenceQuery(f));
    forall n
      ensures WithName(img + t + u, n) == WithName(img + u + t, n)
    {
      OptionalPairFilter("subtitle", FieldValue(f.showSubtitle, f.subtitle), n);
      OptionalPairFilter("title", FieldValue(f.showTitle, f.title), n);
      SwapKeepsWithName(img, t, u, n);
    }
    SortIsTheOrderedArrangement(img + t + u, img + u + t);
  }

  // ---------------------------------------------------------------------------
  // What the query holds

  /** The four banner names are pairwise different. */
  lemma NamesDiffer()
    ensures "image" != "imageHeight" && "image" != "subtitle" && "image" != "title"
    ensures "imageHeight" != "subtitle" && "imageHeight" != "title" && "subtitle" != "title"
  {
    assert |"image"| != |"imageHeight"|;
    assert "image"[0] != "subtitle"[0] && "image"[0] != "title"[0];
    assert "imageHeight"[0] != "subtitle"[0] && "imageHeight"[0] != "title"[0];
    assert "subtitle"[0] != "title"[0];
  }

  lemma ReferenceWithName(f: Form)
    ensures WithName(ReferenceQuery(f), "image") == if f.imageUrl != "" then [("image", f.imageUrl)] else []
    ensures WithName(ReferenceQuery(f), "imageHeight")
      == if f.imageUrl != "" then [("imageHeight", Decimal.IntToString(f.imageHeight))] else []
    ensures WithName(ReferenceQuery(f), "subtitle") == OptionalPair("subtitle", FieldValue(f.showSubtitle, f.subtitle))
    ensures WithName(ReferenceQuery(f), "title") == OptionalPair("title", FieldValue(f.showTitle, f.title))
  {
    var img := ImagePairs(f);
    var s := OptionalPair("subtitle", FieldValue(f.showSubtitle, f.subtitle));
    var t := OptionalPair("title", FieldValue(f.showTitle, f.title));
    var a := ("image", f.imageUrl);
    var b := ("imageHeight", Decimal.IntToString(f.imageHeight));
    NamesDiffer();
    forall n | IsBannerName(n)
      ensures WithName(ReferenceQuery(f), n)
        == (if f.imageUrl != "" then (if a.0 == n then [a] else []) + (if b.0 == n then [b] else []) else [])
           + (if n == "subtitle" then s else [])
           + (if n == "title" then t else [])
    {
      WithNameAppend3(img, s, t, n);
      PairsFilter(a, b, n);
      OptionalPairFilter("subtitle", FieldValue(f.showSubtitle, f.subtitle), n);
      OptionalPairFilter("title", FieldValue(f.showTitle, f.title), n);
    }
  }

  /**
   * What a banner query says about the form, parameter by parameter: `image`
   * and `imageHeight` are present exactly when an image address is given,
   * carrying the address and the base-10 height; `title` and `subtitle` are
   * "null" when hidden, absent when shown but empty or "default", and the
   * text otherwise; no name repeats, only the four banner names occur, and the
   * pairs are in name order.
   */
  predicate Describes(f: Form, q: Params) {
    && (Has(q, "image") <==> f.imageUrl != "")
    && (Has(q, "imageHeight") <==> f.imageUrl != "")
    && (f.imageUrl != "" ==> Get(q, "image") == Some(f.imageUrl))
    && (f.imageUrl != "" ==> Get(q, "imageHeight") == Some(Decimal.IntToString(f.imageHeight)))
    && (!f.showTitle ==> Get(q, "title") == Some("null"))
    && (f.showTitle && (f.title == "" || f.title == "default") ==> !Has(q, "title"))
    && (f.showTitle && f.title != "" && f.title != "default" ==> Get(q, "title") == Some(f.title))
    && (!f.showSubtitle ==> Get(q, "subtitle") == Some("null"))
    && (f.showSubtitle && (f.subtitle == "" || f.subtitle == "default") ==> !Has(q, "subtitle"))
    && (f.showSubtitle && f.subtitle != "" && f.subtitle != "default" ==> Get(q, "subtitle") == Some(f.subtitle))
    && DistinctNames(q) && Sorted(q)
    && (forall i :: 0 <= i < |q| ==> IsBannerName(q[i].0))
  }

  lemma ReferenceDescribes(f: Form)
    ensures Describes(f, ReferenceQuery(f))
  {
    var q := ReferenceQuery(f);
    ReferenceWithName(f);
    ReferenceRanked(f);
    RankedIsSorted(q);
    GetFromWithName(q, "image");
    GetFromWithName(q, "imageHeight");
    GetFromWithName(q, "title");
    GetFromWithName(q, "subtitle");
    WithNameEmpty(q, "image");
    WithNameEmpty(q, "imageHeight");
    WithNameEmpty(q, "title");
    WithNameEmpty(q, "subtitle");
  }

  /** The effect's query describes the form. */
  lemma BuildQueryFields(f: Form)
    ensures Describes(f, BuildQuery(f))
  {
    BuildQueryIsReference(f);
    ReferenceDescribes(f);
  }

  /** With every field present, the order is image, imageHeight, subtitle, title. */
  lemma BuildQueryFullOrder(f: Form)
    requires f.imageUrl != ""
    requires FieldValue(f.showTitle, f.title).Some? && FieldValue(f.showSubtitle, f.subtitle).Some?
    ensures BuildQuery(f) == [
      ("image", f.imageUrl),
      ("imageHeight", Decimal.IntToString(f.imageHeight)),
      ("subtitle", FieldValue(f.showSubtitle, f.subtitle).value),
      ("title", FieldValue(f.showTitle, f.title).value)
    ]
  {
    BuildQueryIsReference(f);
    ReferenceFullOrder(f);
  }

  lemma ReferenceFullOrder(f: Form)
    requires f.imageUrl != ""
    requires FieldValue(f.showTitle, f.title).Some? && FieldValue(f.showSubtitle, f.subtitle).Some?
    ensures ReferenceQuery(f) == [
      ("image", f.imageUrl),
      ("imageHeight", Decimal.IntToString(f.imageHeight)),
      ("subtitle", FieldValue(f.showSubtitle, f.subtitle).value),
      ("title", FieldValue(f.showTitle, f.title).value)
    ]
  {
  }

  /** The form's starting state asks for the image at height 64, a hidden title, and the default subtitle. */
  lemma InitialQuery()
    ensures BuildQuery(InitialForm) == [
      ("image", "https://github.com/tailwindlabs/tailwindcss/raw/master/.github/logo-dark.svg"),
      ("imageHeight", "64"),
      ("title", "null")
    ]
  {
    BuildQueryIsReference(InitialForm);
    InitialReference();
  }

  lemma InitialReference()
    ensures ReferenceQuery(InitialForm) == [
      ("image", "https://github.com/tailwindlabs/tailwindcss/raw/master/.github/logo-dark.svg"),
      ("imageHeight", "64"),
      ("title", "null")
    ]
  {
    assert Decimal.IntToString(64) == "64";
  }

  // ---------------------------------------------------------------------------
  // Addresses and the Markdown snippet

  /** What the effect reports: the repository, `/banner?`, then the serialised query. */
  function BannerPath(f: Form, serialize: Params -> string): string {
    f.repository + "/banner?" + serialize(BuildQuery(f))
  }

  /** The path the page stores: the lower-cased provider, `/`, and the reported path. */
  function ProviderPath(p: Provider, value: string): string {
    Text.LowerAscii(ProviderName(p)) + "/" + value
  }

  /** The plain address shown for copying. */
  function FullUrl(url: string): string {
    Host + url
  }

  /** The Markdown image snippet shown for copying. */
  function Markdown(p: Provider, fullUrl: string): string {
    "![" + ProviderName(p) + " image](" + fullUrl + ")"
  }

  lemma RouteSplits(repository: string, query: string)
    requires '?' !in repository
    ensures Text.SplitAtFirst(repository + "/banner?" + query, '?') == Some((repository + "/banner", query))
  {
    var route := repository + "/banner";
    assert '?' !in route;
    assert repository + "/banner?" + query == route + ['?'] + query;
    Text.SplitAtFirstJoin(route, '?', query);
  }

  /**
   * The first '?' of the reported path ends the banner route when the
   * repository has none, so a reader splitting there gets the route back and
   * exactly the serialised query.
   */
  lemma BannerPathSplits(f: Form, serialize: Params -> string)
    requires '?' !in f.repository
    ensures Text.SplitAtFirst(BannerPath(f, serialize), '?')
      == Some((f.repository + "/banner", serialize(BuildQuery(f))))
  {
    RouteSplits(f.repository, serialize(BuildQuery(f)));
  }

  /**
   * The repository is placed in the path without encoding, and the validator
   * accepts a '?' in it. The first '?' then lies inside the repository: a
   * reader splitting there gets part of the repository as the route, and the
   * rest of it, `/banner?` and the query as the query text.
   */
  lemma BannerPathSplitsInsideRepository(f: Form, serialize: Params -> string, before: string, after: string)
    requires f.repository == before + "?" + after && '?' !in before
    ensures ValidRepository(f.repository) <==> '/' in before || '/' in after
    ensures Text.SplitAtFirst(BannerPath(f, serialize), '?')
      == Some((before, after + "/banner?" + serialize(BuildQuery(f))))
  {
    RouteSplitsInside(before, after, serialize(BuildQuery(f)));
  }

  lemma RouteSplitsInside(before: string, after: string, query: string)
    requires '?' !in before
    ensures ValidRepository(before + "?" + after) <==> '/' in before || '/' in after
    ensures Text.SplitAtFirst(before + "?" + after + "/banner?" + query, '?')
      == Some((before, after + "/banner?" + query))
  {
    var rest := after + "/banner?" + query;
    assert before + "?" + after + "/banner?" + query == before + ['?'] + rest;
    Text.SplitAtFirstJoin(before, '?', rest);
    var repository := before + "?" + after;
    assert forall x :: x in repository <==> x in before || x == '?' || x in after by {
      forall x
        ensures x in repository <==> x in before || x == '?' || x in after
      {
        assert repository == before + (['?'] + after);
      }
    }
    SlashValid(repository);
  }

  /** A repository such as `a/b?c` passes the validator, and its banner path splits inside the repository. */
  lemma QuestionMarkRepository(f: Form, serialize: Params -> string)
    requires f.repository == "a/b?c"
    ensures ValidRepository(f.repository)
    ensures Text.SplitAtFirst(BannerPath(f, serialize), '?')
      == Some(("a/b", "c/banner?" + serialize(BuildQuery(f))))
  {
    QuestionMarkRoute(serialize(BuildQuery(f)));
  }

  lemma QuestionMarkRoute(query: string)
    ensures ValidRepository("a/b?c")
    ensures Text.SplitAtFirst("a/b?c" + "/banner?" + query, '?') == Some(("a/b", "c/banner?" + query))
  {
    QuestionMarkParts();
    RouteSplitsInside("a/b", "c", query);
    assert "c" + "/banner?" + query == "c/banner?" + query;
  }

  lemma QuestionMarkParts()
    ensures "a/b?c" == "a/b" + "?" + "c"
    ensures '/' in "a/b" && '?' !in "a/b"
  {
    assert "a/b"[1] == '/';
  }

  lemma GitHubUrlShape(value: string)
    ensures FullUrl(ProviderPath(GitHub, value)) == "https://raphtalia.ariesclark.com/github/" + value
  {
    assert Text.LowerAscii("GitHub") == "github";
  }

  lemma GitHubRoute(repository: string, query: string)
    ensures FullUrl(ProviderPath(GitHub, repository + "/banner?" + query))
      == "https://raphtalia.ariesclark.com/github/" + repository + "/banner?" + query
  {
    GitHubUrlShape(repository + "/banner?" + query);
  }

  /** The full banner address: host, `github/`, repository, `/banner?`, query. */
  lemma GitHubFullUrl(f: Form, serialize: Params -> string)
    ensures FullUrl(ProviderPath(GitHub, BannerPath(f, serialize)))
      == "https://raphtalia.ariesclark.com/github/" + f.repository + "/banner?" + serialize(BuildQuery(f))
  {
    GitHubRoute(f.repository, serialize(BuildQuery(f)));
  }

  /** Reads `![alt](target)` back into alt text and target, for alt text without ']'. */
  function ParseImageLink(md: string): Option<(string, string)> {
    if |md| >= 3 && md[..2] == "![" && md[|md| - 1] == ')' then
      match Text.SplitAtFirst(md[2..|md| - 1], ']')
      case Some((alt, rest)) =>
        if |rest| > 0 && rest[0] == '(' then Some((alt, rest[1..])) else None
      case None => None
    else None
  }

  /**
   * The snippet splits back under `ParseImageLink` into the alt text naming
   * the provider and the address. Markdown's rules for link destinations are
   * not checked: the address carries the repository unencoded.
   */
  lemma MarkdownRoundTrip(p: Provider, fullUrl: string)
    ensures ParseImageLink(Markdown(p, fullUrl)) == Some((ProviderName(p) + " image", fullUrl))
  {
    var alt := ProviderName(p) + " image";
    var md := Markdown(p, fullUrl);
    assert md == "![" + alt + "](" + fullUrl + ")";
    assert md[2..|md| - 1] == alt + [']'] + ("(" + fullUrl);
    assert ']' !in alt;
    Text.SplitAtFirstJoin(alt, ']', "(" + fullUrl);
  }

  // ---------------------------------------------------------------------------
  // The repository field

  /** The repository field's validator: the text contains '/'. */
  function ValidRepository(value: string): (ok: bool)
    ensures ok <==> exists owner, name :: value == owner + "/" + name
  {
    match Text.SplitAtFirst(value, '/')
    case Some((owner, name)) => true
    case None =>
      assert forall owner, name :: value != owner + "/" + name by {
        forall owner, name
          ensures value != owner + "/" + name
        {
          assert (owner + "/" + name)[|owner|] == '/';
        }
      }
      false
  }

  /** The validator accepts exactly the texts that contain '/'. */
  lemma SlashValid(value: string)
    ensures ValidRepository(value) <==> '/' in value
  {
  }

  /**
   * Typing into the repository field: the raw text is validated, its trimmed
   * form is stored, and the field is flagged when validation fails.
   */
  function RepositoryInput(f: Form, value: string): (r: (Form, bool))
    ensures r.0 == f.(repository := Text.Trim(value))
    ensures r.1 <==> !ValidRepository(value)
    ensures r.1 <==> '/' !in r.0.repository
  {
    TrimKeepsSlash(value);
    (f.(repository := Text.Trim(value)), !ValidRepository(value))
  }

  /** Trimming never removes a '/', so validation agrees on the raw and the trimmed text. */
  lemma TrimKeepsSlash(value: string)
    ensures '/' in Text.Trim(value) <==> '/' in value
  {
    Text.TrimKeeps(value, '/');
  }
}
