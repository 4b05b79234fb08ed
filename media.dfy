/**
 * Resolution of a property's media links: the image files found in the property's
 * directory under the media base directory, sorted by name and turned into URLs
 * under the media base URL. The filesystem is an input: a `Listing` says what
 * probing and listing the directory produced.
 */
module Media {
  import opened JavaString
  import opened StringSort

  /** One entry of a directory listing: its file name (last path segment) and whether `Files.isRegularFile` holds. */
  datatype Entry = Entry(name: string, isRegular: bool)

  /** What the filesystem makes of the property's media directory. */
  datatype Listing =
    | Missing                          // `Files.exists` is false
    | NotADirectory                    // it exists but `Files.isDirectory` is false
    | ListFailed                       // `Files.list` threw an IOException
    | Listed(entries: seq<Entry>)      // the entries, in the order the filesystem returned them

  /** The accepted image extensions, in lower case (`EXT_OK`). */
  const ExtOk: set<string> := {"jpg", "jpeg", "png", "webp"}

  // ---------------------------------------------------------------------------
  // isImagem
  // ---------------------------------------------------------------------------

  /** A file name is an image when the lower-cased text after its last '.' is an accepted extension. */
  predicate IsImagem(filename: string)
  {
    var idx := LastIndexOf(filename, '.');
    if idx < 0 then false else Lower(filename[idx + 1..]) in ExtOk
  }

  /** A name without any '.' is never an image. */
  lemma NoDotIsNotImage(filename: string)
    requires '.' !in filename
    ensures !IsImagem(filename)
  {
    LastIndexOfAbsent(filename, '.');
  }

  /** The predicate in terms of positions: some '.' with no later '.' is followed by an accepted extension. */
  lemma IsImagemIffLastDot(filename: string)
    ensures IsImagem(filename) <==>
      exists k :: 0 <= k < |filename| && filename[k] == '.' && '.' !in filename[k + 1..]
        && Lower(filename[k + 1..]) in ExtOk
  {
    var idx := LastIndexOf(filename, '.');
    if idx >= 0 {
      assert '.' !in filename[idx + 1..];
    }
    forall k | 0 <= k < |filename| && filename[k] == '.' && '.' !in filename[k + 1..]
      ensures k == idx
    {
      LastIndexOfAt(filename, k, '.');
    }
  }

  /** `f` ends with `suffix`, ignoring ASCII case. */
  predicate EndsWithIgnoringCase(f: string, suffix: string)
  {
    |suffix| <= |f| && Lower(f[|f| - |suffix|..]) == suffix
  }

  /** No accepted extension holds a '.'. */
  lemma ExtensionHasNoDot(ext: string)
    requires ext in ExtOk
    ensures '.' !in ext
  {
  }

  /**
   * An independent reading of `isImagem`: the name ends, ignoring case, with '.' followed
   * by an accepted extension. So "a.JPG" passes while "x.png.txt" and "noext." do not.
   */
  lemma IsImagemIffSuffix(f: string)
    ensures IsImagem(f) <==> exists ext :: ext in ExtOk && EndsWithIgnoringCase(f, "." + ext)
  {
    if IsImagem(f) {
      ImageHasSuffix(f);
    }
    forall ext | ext in ExtOk && EndsWithIgnoringCase(f, "." + ext) ensures IsImagem(f) {
      SuffixMakesImage(f, ext);
    }
  }

  lemma ImageHasSuffix(f: string)
    requires IsImagem(f)
    ensures var ext := Lower(f[LastIndexOf(f, '.') + 1..]); ext in ExtOk && EndsWithIgnoringCase(f, "." + ext)
  {
    var idx := LastIndexOf(f, '.');
    var ext := Lower(f[idx + 1..]);
    assert Lower(f[idx..]) == "." + ext;
    assert f[|f| - |"." + ext|..] == f[idx..];
  }

  /** A text whose lower-cased form is '.' and a dot-free text starts with its only '.'. */
  lemma DotThenNoDot(t: string, ext: string)
    requires '.' !in ext && Lower(t) == "." + ext
    ensures t != [] && t[0] == '.' && '.' !in t[1..] && Lower(t[1..]) == ext
  {
    assert t != [];
    assert Lower(t) == [LowerChar(t[0])] + Lower(t[1..]);
    assert Lower(t[1..]) == ext;
    forall j | 0 <= j < |t[1..]| ensures t[1..][j] != '.' {
      assert LowerChar(t[1..][j]) == ext[j];
    }
  }

  /** When a name ends, ignoring case, with '.' and a text without '.', that '.' is the last one. */
  lemma SuffixAfterLastDot(f: string, ext: string)
    requires '.' !in ext && EndsWithIgnoringCase(f, "." + ext)
    ensures LastIndexOf(f, '.') == |f| - |ext| - 1
    ensures Lower(f[|f| - |ext|..]) == ext
  {
    var p := |f| - |ext| - 1;
    var t := f[p..];
    assert |"." + ext| == |ext| + 1;
    assert Lower(t) == "." + ext;
    DotThenNoDot(t, ext);
    assert f[p] == t[0] && f[p + 1..] == t[1..];
    LastIndexOfAt(f, p, '.');
  }

  lemma SuffixMakesImage(f: string, ext: string)
    requires ext in ExtOk
    ensures EndsWithIgnoringCase(f, "." + ext) ==> IsImagem(f)
  {
    if EndsWithIgnoringCase(f, "." + ext) {
      ExtensionHasNoDot(ext);
      SuffixAfterLastDot(f, ext);
    }
  }

  // ---------------------------------------------------------------------------
  // listarLinksImagens
  // ---------------------------------------------------------------------------

  /** `.filter(Files::isRegularFile).map(Path::getFileName).map(Path::toString)`. */
  function RegularNames(entries: seq<Entry>): (r: seq<string>)
    ensures forall n :: multiset(r)[n] == multiset(entries)[Entry(n, true)]
  {
    if entries == [] then []
    else
      assert entries == [entries[0]] + entries[1..];
      (if entries[0].isRegular then [entries[0].name] else []) + RegularNames(entries[1..])
  }

  /** `.filter(this::isImagem)`. */
  function ImageNames(names: seq<string>): (r: seq<string>)
    ensures |r| <= |names|
    ensures forall i :: 0 <= i < |r| ==> r[i] in names
  {
    if names == [] then []
    else
      assert names == [names[0]] + names[1..];
      (if IsImagem(names[0]) then [names[0]] else []) + ImageNames(names[1..])
  }

  /** The filter keeps every occurrence of an image name and none of any other name. */
  lemma {:induction false} ImageNamesCount(names: seq<string>, n: string)
    ensures multiset(ImageNames(names))[n] == if IsImagem(n) then multiset(names)[n] else 0
  {
    if names != [] {
      var h, t := names[0], names[1..];
      ImageNamesCount(t, n);
      assert names == [h] + t;
      var kept := if IsImagem(h) then [h] else [];
      assert ImageNames(names) == kept + ImageNames(t);
      assert multiset(ImageNames(names)) == multiset(kept) + multiset(ImageNames(t));
      assert multiset(names) == multiset{h} + multiset(t);
    }
  }

  /** The public URL of one media file: the base URL, the id segment, then the file name. */
  function Url(baseUrl: string, id: Long, name: string): string
  {
    baseUrl + "/" + LongToString(id) + "/" + name
  }

  /** A URL starts with the base URL and '/', and ends with '/' and the file name. */
  lemma UrlParts(baseUrl: string, id: Long, name: string)
    ensures var u := Url(baseUrl, id, name);
      && |u| == |baseUrl| + |LongToString(id)| + |name| + 2
      && u[..|baseUrl| + 1] == baseUrl + "/"
      && u[|u| - |name| - 1..] == "/" + name
  {
    var head, mid, tail := baseUrl + "/", LongToString(id), "/" + name;
    var u := Url(baseUrl, id, name);
    assert u == head + (mid + tail);
    assert u == (head + mid) + tail;
    assert u[..|head|] == head;
    assert u[|head + mid|..] == tail;
  }

  /** `.map(nomeArquivo -> mediaBaseUrl + "/" + propriedadeId + "/" + nomeArquivo)`. */
  function Links(baseUrl: string, id: Long, names: seq<string>): (r: seq<string>)
    ensures |r| == |names|
  {
    if names == [] then [] else [Url(baseUrl, id, names[0])] + Links(baseUrl, id, names[1..])
  }

  /** The sorted names of the regular image files of a listing. */
  function SortedImageNames(entries: seq<Entry>): (r: seq<string>)
    ensures Sorted(r)
  {
    SortSpec(ImageNames(RegularNames(entries)));
    Sort(ImageNames(RegularNames(entries)))
  }

  /**
   * `listarLinksImagens(id)` for the directory state `dir`: a missing directory, a
   * non-directory and a failed listing all give the empty list.
   */
  function ListarLinksImagens(baseUrl: string, id: Long, dir: Listing): (r: seq<string>)
    ensures !dir.Listed? ==> r == []
  {
    match dir
    case Listed(entries) => Links(baseUrl, id, SortedImageNames(entries))
    case _ => []
  }

  /** How many times each name occurs among the regular image files of a listing. */
  ghost predicate QualifyingNames(entries: seq<Entry>, names: seq<string>)
  {
    forall n :: multiset(names)[n] == if IsImagem(n) then multiset(entries)[Entry(n, true)] else 0
  }

  lemma {:induction false} LinksShape(baseUrl: string, id: Long, names: seq<string>)
    ensures |Links(baseUrl, id, names)| == |names|
    ensures forall i :: 0 <= i < |names| ==> Links(baseUrl, id, names)[i] == Url(baseUrl, id, names[i])
  {
    if names != [] {
      LinksShape(baseUrl, id, names[1..]);
    }
  }

  /** The file name can be read back from its URL. */
  lemma UrlInjective(baseUrl: string, id: Long, a: string, b: string)
    requires Url(baseUrl, id, a) == Url(baseUrl, id, b)
    ensures a == b
  {
    var prefix := baseUrl + "/" + LongToString(id) + "/";
    assert Url(baseUrl, id, a) == prefix + a && Url(baseUrl, id, b) == prefix + b;
    assert a == (prefix + a)[|prefix|..];
    assert b == (prefix + b)[|prefix|..];
  }

  /**
   * The media list of a readable directory is the list of its regular image files,
   * each exactly as often as it is listed, sorted by name, each mapped to its URL.
   */
  lemma ListarLinksImagensSpec(baseUrl: string, id: Long, entries: seq<Entry>)
    ensures var r := ListarLinksImagens(baseUrl, id, Listed(entries));
      exists names: seq<string> ::
        && Sorted(names)
        && QualifyingNames(entries, names)
        && |r| == |names|
        && forall i :: 0 <= i < |r| ==> r[i] == Url(baseUrl, id, names[i])
  {
    var names := SortedImageNames(entries);
    SortSpec(ImageNames(RegularNames(entries)));
    LinksShape(baseUrl, id, names);
    forall n ensures multiset(names)[n] == if IsImagem(n) then multiset(entries)[Entry(n, true)] else 0 {
      ImageNamesCount(RegularNames(entries), n);
    }
  }

  /** Each URL names a regular image file of the listing. */
  lemma LinksAreListedImages(baseUrl: string, id: Long, entries: seq<Entry>)
    ensures forall u :: u in ListarLinksImagens(baseUrl, id, Listed(entries)) ==>
      exists n :: u == Url(baseUrl, id, n) && IsImagem(n) && Entry(n, true) in entries
  {
    var names := SortedImageNames(entries);
    var r := ListarLinksImagens(baseUrl, id, Listed(entries));
    SortSpec(ImageNames(RegularNames(entries)));
    LinksShape(baseUrl, id, names);
    forall u | u in r ensures exists n :: u == Url(baseUrl, id, n) && IsImagem(n) && Entry(n, true) in entries {
      var i :| 0 <= i < |r| && r[i] == u;
      var n := names[i];
      ImageNamesCount(RegularNames(entries), n);
      assert n in multiset(names);
      assert multiset(names)[n] > 0;
      assert u == Url(baseUrl, id, n);
    }
  }

  lemma {:induction false} LinksCount(baseUrl: string, id: Long, names: seq<string>, n: string)
    ensures multiset(Links(baseUrl, id, names))[Url(baseUrl, id, n)] == multiset(names)[n]
  {
    if names != [] {
      var h, t := names[0], names[1..];
      LinksCount(baseUrl, id, t, n);
      assert names == [h] + t;
      assert multiset(names) == multiset{h} + multiset(t);
      assert multiset(Links(baseUrl, id, names)) == multiset{Url(baseUrl, id, h)} + multiset(Links(baseUrl, id, t));
      if Url(baseUrl, id, h) == Url(baseUrl, id, n) {
        UrlInjective(baseUrl, id, h, n);
      }
    }
  }

  /** Every regular image file yields its URL exactly as often as it is listed, and no other name yields one. */
  lemma LinkPerListedImage(baseUrl: string, id: Long, entries: seq<Entry>, n: string)
    ensures multiset(ListarLinksImagens(baseUrl, id, Listed(entries)))[Url(baseUrl, id, n)]
         == if IsImagem(n) then multiset(entries)[Entry(n, true)] else 0
  {
    SortSpec(ImageNames(RegularNames(entries)));
    ImageNamesCount(RegularNames(entries), n);
    LinksCount(baseUrl, id, SortedImageNames(entries), n);
  }

  /**
   * The order in which the filesystem lists the entries does not matter: listings that
   * hold the same entries give the same media list.
   */
  lemma ListingOrderIrrelevant(baseUrl: string, id: Long, e1: seq<Entry>, e2: seq<Entry>)
    requires multiset(e1) == multiset(e2)
    ensures ListarLinksImagens(baseUrl, id, Listed(e1)) == ListarLinksImagens(baseUrl, id, Listed(e2))
  {
    var m1, m2 := ImageNames(RegularNames(e1)), ImageNames(RegularNames(e2));
    assert multiset(m1) == multiset(m2) by {
      forall n ensures multiset(m1)[n] == multiset(m2)[n] {
        ImageNamesCount(RegularNames(e1), n);
        ImageNamesCount(RegularNames(e2), n);
      }
    }
    SortSpec(m1);
    SortSpec(m2);
    SortedUnique(Sort(m1), Sort(m2));
  }

  /** "a.JPG" is an image; "x.png.txt", "noext." and "noext" are not. */
  lemma IsImagemExamples()
    ensures IsImagem("a.JPG")
    ensures !IsImagem("x.png.txt") && !IsImagem("noext.") && !IsImagem("noext")
  {
    LastIndexOfAt("a.JPG", 1, '.');
    assert Lower("JPG") == "jpg";
    LastIndexOfAt("x.png.txt", 5, '.');
    LowerOfLowerCase("txt");
    LastIndexOfAt("noext.", 5, '.');
    NoDotIsNotImage("noext");
  }

  lemma ScenarioNames()
    ensures IsImagem("b.png") && IsImagem("a.JPG") && !IsImagem("c.txt")
  {
    LastIndexOfAt("b.png", 1, '.');
    LastIndexOfAt("a.JPG", 1, '.');
    LastIndexOfAt("c.txt", 1, '.');
    LowerOfLowerCase("png");
    assert Lower("JPG") == "jpg";
    LowerOfLowerCase("txt");
  }

  lemma ScenarioRegularNames()
    ensures RegularNames([Entry("b.png", true), Entry("a.JPG", true), Entry("c.txt", true)])
         == ["b.png", "a.JPG", "c.txt"]
  {
    var entries := [Entry("b.png", true), Entry("a.JPG", true), Entry("c.txt", true)];
    assert RegularNames(entries[2..]) == ["c.txt"];
    assert RegularNames(entries[1..]) == ["a.JPG", "c.txt"];
  }

  /** The image filter on three names of which the first two are images. */
  lemma ImageNamesOfThree(a: string, b: string, c: string)
    requires IsImagem(a) && IsImagem(b) && !IsImagem(c)
    ensures ImageNames([a, b, c]) == [a, b]
  {
    var s3, s2, s1 := [a, b, c], [b, c], [c];
    assert s1[1..] == [] && s2[1..] == s1 && s3[1..] == s2;
    assert ImageNames(s1) == ImageNames([]);
    assert ImageNames(s2) == [b] + ImageNames(s1);
    assert ImageNames(s3) == [a] + ImageNames(s2);
  }

  lemma ScenarioImageNames()
    ensures ImageNames(RegularNames([Entry("b.png", true), Entry("a.JPG", true), Entry("c.txt", true)]))
         == ["b.png", "a.JPG"]
  {
    ScenarioRegularNames();
    ScenarioNames();
    ImageNamesOfThree("b.png", "a.JPG", "c.txt");
  }

  lemma ScenarioLinks()
    ensures Links("https://img.example.com", 42, Sort(["b.png", "a.JPG"]))
         == ["https://img.example.com/42/a.JPG", "https://img.example.com/42/b.png"]
  {
    assert CompareTo("b.png", "a.JPG") > 0;
    assert Sort(["b.png", "a.JPG"]) == ["a.JPG", "b.png"];
    assert LongToString(42) == "42";
    assert Url("https://img.example.com", 42, "a.JPG") == "https://img.example.com/42/a.JPG";
    assert Url("https://img.example.com", 42, "b.png") == "https://img.example.com/42/b.png";
    assert Links("https://img.example.com", 42, ["b.png"]) == ["https://img.example.com/42/b.png"];
  }

  /** The example of a directory holding "b.png", "a.JPG" and "c.txt". */
  lemma ScenarioMixedCase()
    ensures ListarLinksImagens("https://img.example.com", 42,
              Listed([Entry("b.png", true), Entry("a.JPG", true), Entry("c.txt", true)]))
         == ["https://img.example.com/42/a.JPG", "https://img.example.com/42/b.png"]
  {
    ScenarioImageNames();
    ScenarioLinks();
  }

  /** The example of a property whose media directory does not exist. */
  lemma ScenarioMissing(baseUrl: string, id: Long)
    ensures ListarLinksImagens(baseUrl, id, Missing) == []
  {
  }
}
