# Property service: media links and distinct values

A Dafny model of the query-and-enrichment service of a property-listing catalog
(`PropriedadeService`). The service fetches property records (`Propriedade`) from a
repository, attaches to each one the list of public URLs of the images in that
property's media directory (`midias`), and answers distinct-value queries (property
types, internal and external feature tags).

What is modelled:

- **Image filter** (`isImagem`, `EXT_OK`): a file name is an image when the lower-cased
  text after its last `.` is `jpg`, `jpeg`, `png` or `webp`. The predicate models
  `lastIndexOf` and `substring` as the code does. Two independent characterisations
  are proved equivalent to it: "there is a last dot followed by an accepted extension",
  and "the name ends, ignoring case, with `.` plus an accepted extension".
- **Media-link pipeline** (`listarLinksImagens`): the filesystem is an input. A
  `Listing` is `Missing`, `NotADirectory`, `ListFailed` (the `IOException` of
  `Files.list`) or `Listed(entries)`. Each `Entry` carries the file name and the answer
  of `Files.isRegularFile`. The first three cases give the empty list. A listed
  directory passes through the code's steps: keep regular files, keep image names,
  sort, map to `baseUrl + "/" + id + "/" + name`. The proved properties are:
  - the output is the sorted list of qualifying names, each as often as it is listed, mapped to URLs;
  - every URL names a regular image file of the listing;
  - the URL of a file name occurs exactly as often as the file is listed;
  - the result does not depend on the order in which the filesystem lists the entries.
- **Ordering** (`Stream.sorted()` on `String`): `String.compareTo` is modelled
  exactly: the first differing char decides, otherwise the shorter string comes first.
  Its order laws are proved. Insertion sort serves as the reference sort. Any sorted
  permutation equals it, so the JDK's own sorting algorithm gives the same list.
- **Distinct values** (`distinct()`, `flatMap`, `extrairParaUmaListaDistinta`,
  `getImovelTipos`): the output has no repeats, holds exactly the input's values, and
  keeps them in the order of their first occurrence. It is empty exactly when every
  inner list is empty. A sorted input gives a strictly sorted output. A list without
  repeats comes back unchanged.
- **Attaching media** (`embarcarMidias`, `buscarPorID`, `buscar`): `Propriedade` is a
  class. `EmbarcarMidias` may write only `p.midias`, to which it assigns the resolved
  list, and it returns `p`. `BuscarPorId` returns null exactly when the repository has
  no record under the id. `Buscar` attaches media to every record of a page and leaves
  the other fields alone.

`mediaBaseUrl` is a plain parameter. The media base directory is a map from
sub-directory name to `Listing`. A name that is not a key is `Missing`. The property's
directory is the entry named `String.valueOf(id)`, modelled by `LongToString`, which is
proved injective.

Files: `java_string.dfy` (module `JavaString`), `string_sort.dfy` (`StringSort`),
`streams.dfy` (`Streams`), `media.dfy` (`Media`), `service.dfy` (`Service`).

Facts about the code that the model follows:

- `embarcarMidias` mutates the fetched entity in place.
- `buscarPorID` returns `null` when the repository has no record for the id.
- `sorted()` compares with `String.compareTo` over chars.
- `distinct()` keeps first occurrences in order.

## Model

| member | source | states |
|---|---|---|
| `JavaString.LastIndexOf` | src/main/java/com/github/fid3lles/imobiliaria_core/domain/propriedade/PropriedadeService.java:98 | the result is -1 or an index holding the char, and no later index holds it |
| `JavaString.LastIndexOfAbsent` | src/main/java/com/github/fid3lles/imobiliaria_core/domain/propriedade/PropriedadeService.java:98-99 | `lastIndexOf` is negative exactly when the char does not occur |
| `JavaString.LastIndexOfAt` | src/main/java/com/github/fid3lles/imobiliaria_core/domain/propriedade/PropriedadeService.java:98 | an occurrence with no later occurrence is the one `lastIndexOf` returns |
| `JavaString.LowerChar` | src/main/java/com/github/fid3lles/imobiliaria_core/domain/propriedade/PropriedadeService.java:100 | only upper-case ASCII letters change, each to the lower-case letter 32 code points above it; no result is upper case |
| `JavaString.Lower` | src/main/java/com/github/fid3lles/imobiliaria_core/domain/propriedade/PropriedadeService.java:100 | `toLowerCase` keeps the length and lower-cases char by char |
| `JavaString.LowerOfLowerCase` | src/main/java/com/github/fid3lles/imobiliaria_core/domain/propriedade/PropriedadeService.java:100 | a string without upper-case letters is unchanged by `toLowerCase` |
| `JavaString.CompareTo` | src/main/java/com/github/fid3lles/imobiliaria_core/domain/propriedade/PropriedadeService.java:89 | `String.compareTo`: the difference of the first differing chars, otherwise the difference of the lengths; its laws are the lemmas below |
| `JavaString.LessEq` | src/main/java/com/github/fid3lles/imobiliaria_core/domain/propriedade/PropriedadeService.java:89 | the natural order `sorted()` uses: `compareTo` is at most zero; the lemmas below prove it a total order |
| `JavaString.CompareToZero` | src/main/java/com/github/fid3lles/imobiliaria_core/domain/propriedade/PropriedadeService.java:89 | `compareTo` is zero exactly for equal strings |
| `JavaString.CompareToSwap` | src/main/java/com/github/fid3lles/imobiliaria_core/domain/propriedade/PropriedadeService.java:89 | swapping the operands of `compareTo` negates the result |
| `JavaString.LessEqReflexive` | src/main/java/com/github/fid3lles/imobiliaria_core/domain/propriedade/PropriedadeService.java:89 | the natural order is reflexive |
| `JavaString.LessEqTotal` | src/main/java/com/github/fid3lles/imobiliaria_core/domain/propriedade/PropriedadeService.java:89 | any two strings are comparable |
| `JavaString.LessEqAntisymmetric` | src/main/java/com/github/fid3lles/imobiliaria_core/domain/propriedade/PropriedadeService.java:89 | strings that are each at most the other are equal |
| `JavaString.LessEqTransitive` | src/main/java/com/github/fid3lles/imobiliaria_core/domain/propriedade/PropriedadeService.java:89 | the natural order is transitive |
| `JavaString.PrefixFirst` | src/main/java/com/github/fid3lles/imobiliaria_core/domain/propriedade/PropriedadeService.java:89 | a proper prefix sorts before the longer string |
| `JavaString.Digits` | src/main/java/com/github/fid3lles/imobiliaria_core/domain/propriedade/PropriedadeService.java:77 | the decimal rendering of a natural number is a non-empty string of digits with no leading zero |
| `JavaString.DigitsRoundTrip` | src/main/java/com/github/fid3lles/imobiliaria_core/domain/propriedade/PropriedadeService.java:77 | reading the digits back gives the number |
| `JavaString.LongToString` | src/main/java/com/github/fid3lles/imobiliaria_core/domain/propriedade/PropriedadeService.java:77 | `String.valueOf(id)` is non-empty and holds no '/', so it is a single path and URL segment |
| `JavaString.LongToStringInjective` | src/main/java/com/github/fid3lles/imobiliaria_core/domain/propriedade/PropriedadeService.java:77 | distinct identifiers render as distinct strings, hence distinct directories and URL segments |
| `StringSort.Insert` | src/main/java/com/github/fid3lles/imobiliaria_core/domain/propriedade/PropriedadeService.java:89 | inserting into a list adds exactly one element |
| `StringSort.Sort` | src/main/java/com/github/fid3lles/imobiliaria_core/domain/propriedade/PropriedadeService.java:89 | the reference sort keeps the length; `SortSpec` and `SortedUnique` prove it is the one sorted permutation |
| `StringSort.InsertPermutes` | src/main/java/com/github/fid3lles/imobiliaria_core/domain/propriedade/PropriedadeService.java:89 | inserting adds exactly the one element |
| `StringSort.ConsSorted` | src/main/java/com/github/fid3lles/imobiliaria_core/domain/propriedade/PropriedadeService.java:89 | a lower bound put in front of a sorted list keeps it sorted |
| `StringSort.InsertSorted` | src/main/java/com/github/fid3lles/imobiliaria_core/domain/propriedade/PropriedadeService.java:89 | inserting into a sorted list keeps it sorted |
| `StringSort.SortSpec` | src/main/java/com/github/fid3lles/imobiliaria_core/domain/propriedade/PropriedadeService.java:89 | the sort returns a sorted permutation of its input |
| `StringSort.SortedHeadIsLeast` | src/main/java/com/github/fid3lles/imobiliaria_core/domain/propriedade/PropriedadeService.java:89 | the head of a sorted list is at most each of its elements |
| `StringSort.SortedTail` | src/main/java/com/github/fid3lles/imobiliaria_core/domain/propriedade/PropriedadeService.java:89 | the tail of a sorted list is sorted |
| `StringSort.SameTails` | src/main/java/com/github/fid3lles/imobiliaria_core/domain/propriedade/PropriedadeService.java:89 | lists with the same elements and the same head have tails with the same elements |
| `StringSort.SortedUnique` | src/main/java/com/github/fid3lles/imobiliaria_core/domain/propriedade/PropriedadeService.java:89 | two sorted lists with the same elements are equal |
| `StringSort.SortIsTheSortedPermutation` | src/main/java/com/github/fid3lles/imobiliaria_core/domain/propriedade/PropriedadeService.java:89 | every sorted permutation of the input is the sort's result, whatever algorithm produced it |
| `Streams.Flatten` | src/main/java/com/github/fid3lles/imobiliaria_core/domain/propriedade/PropriedadeService.java:106 | `flatMap` holds exactly the values of the inner lists, and is empty exactly when all inner lists are |
| `Streams.FirstIndex` | src/main/java/com/github/fid3lles/imobiliaria_core/domain/propriedade/PropriedadeService.java:107 | the position of the first occurrence: it holds the value and no earlier position does |
| `Streams.Distinct` | src/main/java/com/github/fid3lles/imobiliaria_core/domain/propriedade/PropriedadeService.java:107 | `distinct()` has no repeats and holds exactly the input's values |
| `Streams.DistinctKeepsFirstOccurrenceOrder` | src/main/java/com/github/fid3lles/imobiliaria_core/domain/propriedade/PropriedadeService.java:107 | the kept values appear in the order of their first occurrences (stable `distinct()`) |
| `Streams.DistinctOfDistinct` | src/main/java/com/github/fid3lles/imobiliaria_core/domain/propriedade/PropriedadeService.java:57 | a list without repeats passes unchanged, so `distinct()` is idempotent |
| `Media.ExtOk` | src/main/java/com/github/fid3lles/imobiliaria_core/domain/propriedade/PropriedadeService.java:31 | the accepted extensions `jpg`, `jpeg`, `png`, `webp`, in lower case |
| `Media.IsImagem` | src/main/java/com/github/fid3lles/imobiliaria_core/domain/propriedade/PropriedadeService.java:97-102 | `isImagem`: the lower-cased text after the last '.' is in `EXT_OK`; characterised by `IsImagemIffLastDot` and `IsImagemIffSuffix` |
| `Media.NoDotIsNotImage` | src/main/java/com/github/fid3lles/imobiliaria_core/domain/propriedade/PropriedadeService.java:98-99 | a name without '.' is not an image |
| `Media.IsImagemIffLastDot` | src/main/java/com/github/fid3lles/imobiliaria_core/domain/propriedade/PropriedadeService.java:97-102 | a name is an image iff some '.' has no later '.' and the lower-cased rest is in `EXT_OK` |
| `Media.ExtensionHasNoDot` | src/main/java/com/github/fid3lles/imobiliaria_core/domain/propriedade/PropriedadeService.java:31 | no accepted extension contains '.' |
| `Media.IsImagemIffSuffix` | src/main/java/com/github/fid3lles/imobiliaria_core/domain/propriedade/PropriedadeService.java:97-102 | a name is an image iff it ends, ignoring case, with '.' and an accepted extension |
| `Media.ImageHasSuffix` | src/main/java/com/github/fid3lles/imobiliaria_core/domain/propriedade/PropriedadeService.java:97-102 | an image name ends, ignoring case, with '.' and its accepted extension |
| `Media.DotThenNoDot` | src/main/java/com/github/fid3lles/imobiliaria_core/domain/propriedade/PropriedadeService.java:98-100 | a text that lower-cases to '.' followed by a dot-free text starts with its only '.' |
| `Media.SuffixAfterLastDot` | src/main/java/com/github/fid3lles/imobiliaria_core/domain/propriedade/PropriedadeService.java:98-100 | the '.' before a trailing dot-free text is the last '.', and that text is what `substring(idx + 1)` yields |
| `Media.SuffixMakesImage` | src/main/java/com/github/fid3lles/imobiliaria_core/domain/propriedade/PropriedadeService.java:97-102 | a name ending, ignoring case, with '.' and an accepted extension is an image |
| `Media.IsImagemExamples` | src/main/java/com/github/fid3lles/imobiliaria_core/domain/propriedade/PropriedadeService.java:97-102 | "a.JPG" is an image; "x.png.txt", "noext." and "noext" are not |
| `Media.RegularNames` | src/main/java/com/github/fid3lles/imobiliaria_core/domain/propriedade/PropriedadeService.java:85-87 | each name occurs as often as the listing has a regular file of that name |
| `Media.ImageNames` | src/main/java/com/github/fid3lles/imobiliaria_core/domain/propriedade/PropriedadeService.java:88 | the filter keeps only names of its input, and no more of them than there are |
| `Media.ImageNamesCount` | src/main/java/com/github/fid3lles/imobiliaria_core/domain/propriedade/PropriedadeService.java:88 | the filter keeps every occurrence of an image name and drops all other names |
| `Media.Url` | src/main/java/com/github/fid3lles/imobiliaria_core/domain/propriedade/PropriedadeService.java:90 | `mediaBaseUrl + "/" + propriedadeId + "/" + nomeArquivo`; its shape is `UrlParts`, and `UrlInjective` shows the name can be recovered from it |
| `Media.UrlParts` | src/main/java/com/github/fid3lles/imobiliaria_core/domain/propriedade/PropriedadeService.java:90 | the URL starts with the base URL and '/', ends with '/' and the file name, and is exactly as long as those parts plus the id segment |
| `Media.Links` | src/main/java/com/github/fid3lles/imobiliaria_core/domain/propriedade/PropriedadeService.java:90 | one URL per name; `LinksShape` gives each position |
| `Media.SortedImageNames` | src/main/java/com/github/fid3lles/imobiliaria_core/domain/propriedade/PropriedadeService.java:84-89 | the names of the regular image files, sorted |
| `Media.ListarLinksImagens` | src/main/java/com/github/fid3lles/imobiliaria_core/domain/propriedade/PropriedadeService.java:76-95 | a missing directory, a non-directory and a failed listing all give the empty list |
| `Media.LinksShape` | src/main/java/com/github/fid3lles/imobiliaria_core/domain/propriedade/PropriedadeService.java:90 | the map step gives one URL per name, at the same position |
| `Media.UrlInjective` | src/main/java/com/github/fid3lles/imobiliaria_core/domain/propriedade/PropriedadeService.java:90 | for a fixed base URL and id, the URL determines the file name |
| `Media.ListarLinksImagensSpec` | src/main/java/com/github/fid3lles/imobiliaria_core/domain/propriedade/PropriedadeService.java:84-91 | the media list is, position by position, the URLs of a sorted list holding each regular image file as often as it is listed |
| `Media.LinksAreListedImages` | src/main/java/com/github/fid3lles/imobiliaria_core/domain/propriedade/PropriedadeService.java:84-91 | every URL is that of a regular file of the listing whose name is an image |
| `Media.LinksCount` | src/main/java/com/github/fid3lles/imobiliaria_core/domain/propriedade/PropriedadeService.java:90 | a name's URL occurs in the mapped list as often as the name occurs |
| `Media.LinkPerListedImage` | src/main/java/com/github/fid3lles/imobiliaria_core/domain/propriedade/PropriedadeService.java:84-91 | each regular image file yields exactly one URL per listing occurrence; other names yield none |
| `Media.ListingOrderIrrelevant` | src/main/java/com/github/fid3lles/imobiliaria_core/domain/propriedade/PropriedadeService.java:83-91 | listings with the same entries in any order give the same media list |
| `Media.ScenarioNames` | src/main/java/com/github/fid3lles/imobiliaria_core/domain/propriedade/PropriedadeService.java:97-102 | "b.png" and "a.JPG" are images, "c.txt" is not |
| `Media.ScenarioRegularNames` | src/main/java/com/github/fid3lles/imobiliaria_core/domain/propriedade/PropriedadeService.java:85-87 | three regular files "b.png", "a.JPG", "c.txt" give their names in listing order |
| `Media.ImageNamesOfThree` | src/main/java/com/github/fid3lles/imobiliaria_core/domain/propriedade/PropriedadeService.java:88 | of three names where only the last is not an image, the filter keeps the first two in order |
| `Media.ScenarioImageNames` | src/main/java/com/github/fid3lles/imobiliaria_core/domain/propriedade/PropriedadeService.java:85-88 | of "b.png", "a.JPG", "c.txt" the filters keep "b.png", "a.JPG" |
| `Media.ScenarioLinks` | src/main/java/com/github/fid3lles/imobiliaria_core/domain/propriedade/PropriedadeService.java:89-90 | "a.JPG" sorts before "b.png", and the URLs are built under id 42 |
| `Media.ScenarioMixedCase` | src/main/java/com/github/fid3lles/imobiliaria_core/domain/propriedade/PropriedadeService.java:76-95 | a directory with "b.png", "a.JPG", "c.txt" gives the URLs of "a.JPG" then "b.png" |
| `Media.ScenarioMissing` | src/main/java/com/github/fid3lles/imobiliaria_core/domain/propriedade/PropriedadeService.java:79-81 | a missing directory gives no media |
| `Service.Midias` | src/main/java/com/github/fid3lles/imobiliaria_core/domain/propriedade/PropriedadeService.java:69 | the media list of a property; a property without a directory has none |
| `Service.EmbarcarMidias` | src/main/java/com/github/fid3lles/imobiliaria_core/domain/propriedade/PropriedadeService.java:68-74 | writes only `p.midias`, to the resolved media list of `p.id`, and returns `p` itself |
| `Service.BuscarPorId` | src/main/java/com/github/fid3lles/imobiliaria_core/domain/propriedade/PropriedadeService.java:43-46 | null exactly when the repository has no record for the id; otherwise that record, with its media attached and its other fields unchanged |
| `Service.Buscar` | src/main/java/com/github/fid3lles/imobiliaria_core/domain/propriedade/PropriedadeService.java:33-41 | the page keeps its records in order; every record gets its media attached and keeps its other fields |
| `Service.GetImovelTipos` | src/main/java/com/github/fid3lles/imobiliaria_core/domain/propriedade/PropriedadeService.java:56-58 | the types without repeats, exactly the repository's values, strictly sorted when the repository's list is sorted |
| `Service.DistinctOfSortedIsStrictlySorted` | src/main/java/com/github/fid3lles/imobiliaria_core/domain/propriedade/PropriedadeService.java:57 | `distinct()` of a sorted list is strictly sorted |
| `Service.GetImovelTiposKeepsFirstOccurrenceOrder` | src/main/java/com/github/fid3lles/imobiliaria_core/domain/propriedade/PropriedadeService.java:57 | the types come in the order of their first occurrence in the repository's list |
| `Service.GetImovelTiposOfDistinct` | src/main/java/com/github/fid3lles/imobiliaria_core/domain/propriedade/PropriedadeService.java:57 | a repository list without repeats is returned unchanged |
| `Service.ExtrairParaUmaListaDistinta` | src/main/java/com/github/fid3lles/imobiliaria_core/domain/propriedade/PropriedadeService.java:104-109 | `extrairParaUmaListaDistinta`, behind `getCaracteristicasInternasTipos` and `getCaracteristicasExternasTipos`: no repeats; a value is in the result iff some inner list holds it; empty iff every inner list is empty |
| `Service.ExtrairKeepsFirstOccurrenceOrder` | src/main/java/com/github/fid3lles/imobiliaria_core/domain/propriedade/PropriedadeService.java:104-109 | values come in the order of their first occurrence, inner list after inner list |
| `Service.ScenarioFeatureTags` | src/main/java/com/github/fid3lles/imobiliaria_core/domain/propriedade/PropriedadeService.java:104-109 | ["pool", "garage"] and ["garage", "elevator"] give ["pool", "garage", "elevator"] |

## Left out

- Spring wiring, `@Value` injection and the constructor (lines 16-29): `mediaBaseUrl` is a parameter. The media base directory is the `MediaRoot` map.
- The repository and `PropriedadeSpecification.comFiltro` (lines 34-37, 44, 49, 53, 57, 61, 65) are external persistence. Their results are inputs: a page is a `seq<Propriedade>`, `findById` is a `map<Long, Propriedade>`, and type and feature lists are sequences. Exceptions thrown by the repository are not modelled; the code lets them reach the caller.
- `getCidades` and `getBairrosPorCidade` (lines 48-54) return the repository's list unchanged. They compute nothing to state.
- `Page`, `Pageable` and the metadata that `page.map` carries over (line 40): a page is its sequence of records.
- The filesystem (lines 77-85) is an input `Listing`:
  - `Path.of` normalisation is not modelled. The directory is looked up by the name `String.valueOf(id)`.
  - A symbolic link is whatever `Files.isRegularFile` answers for it, i.e. the entry's `isRegular` flag.
  - The closing of the stream by try-with-resources is not modelled.
- An I/O error raised while the lazy `Files.list` stream is consumed is not modelled. Java reports it as an `UncheckedIOException`, which `catch (IOException e)` (line 92) does not catch. `ListFailed` stands only for the `IOException` thrown by `Files.list` itself.
- `JavaString.Lower`: `toLowerCase` (line 100) is locale-sensitive over all of Unicode. The model lower-cases ASCII letters only.
- `JavaString.CompareTo`: Java compares UTF-16 code units. Dafny's `char` is a Unicode scalar value. The two orders differ only for names with characters outside the Basic Multilingual Plane.
- `String.valueOf` of a null identifier (`"null"`) is not modelled: a record fetched from the repository has a `long` id.
- Concurrency: there is no shared mutable state beyond the records themselves.
