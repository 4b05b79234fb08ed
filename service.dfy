/**
 * The property query service: attaching media links to the records the repository
 * returns, the single-record lookup, and the distinct-value queries. The repository
 * and the filesystem are inputs: a page or a map of records, and the listing of
 * each property's media directory.
 */
module Service {
  import opened JavaString
  import opened StringSort
  import opened Streams
  import opened Media

  /** A property record. The service writes only `midias`, the derived list of media URLs. */
  class Propriedade {
    var id: Long
    var cidade: string
    var bairro: string
    var tipo: string
    var caracteristicasInternas: seq<string>
    var caracteristicasExternas: seq<string>
    var midias: seq<string>

    constructor (id: Long, cidade: string, bairro: string, tipo: string,
                 caracteristicasInternas: seq<string>, caracteristicasExternas: seq<string>)
      ensures this.id == id && this.cidade == cidade && this.bairro == bairro && this.tipo == tipo
      ensures this.caracteristicasInternas == caracteristicasInternas
      ensures this.caracteristicasExternas == caracteristicasExternas
      ensures midias == []
    {
      this.id := id;
      this.cidade := cidade;
      this.bairro := bairro;
      this.tipo := tipo;
      this.caracteristicasInternas := caracteristicasInternas;
      this.caracteristicasExternas := caracteristicasExternas;
      this.midias := [];
    }

    /** Every field except `midias`: what is persisted and what the service must leave alone. */
    ghost function Persisted(): (Long, string, string, string, seq<string>, seq<string>)
      reads this
    {
      (id, cidade, bairro, tipo, caracteristicasInternas, caracteristicasExternas)
    }
  }

  /**
   * The media base directory: its sub-directories by name, each with what probing and
   * listing it gives. A name that is not a key does not exist.
   */
  type MediaRoot = map<string, Listing>

  /** The directory `Path.of(mediaBaseDir, String.valueOf(id))`. */
  function MediaDir(root: MediaRoot, id: Long): Listing
  {
    var name := LongToString(id);
    if name in root then root[name] else Missing
  }

  /** The media list the service attaches to the property with identifier `id`. */
  function Midias(mediaBaseUrl: string, root: MediaRoot, id: Long): (r: seq<string>)
    ensures LongToString(id) !in root ==> r == []
  {
    ListarLinksImagens(mediaBaseUrl, id, MediaDir(root, id))
  }

  /** `embarcarMidias`: stores the property's media list in `p.midias` and returns `p` itself. */
  method EmbarcarMidias(mediaBaseUrl: string, root: MediaRoot, p: Propriedade) returns (r: Propriedade)
    modifies p`midias
    ensures r == p
    ensures p.midias == Midias(mediaBaseUrl, root, p.id)
    ensures p.Persisted() == old(p.Persisted())
  {
    p.midias := Midias(mediaBaseUrl, root, p.id);
    r := p;
  }

  /**
   * `buscarPorID`: the record the repository holds under `id`, with its media attached,
   * or null when the repository holds none.
   */
  method BuscarPorId(mediaBaseUrl: string, root: MediaRoot, repository: map<Long, Propriedade>, id: Long)
    returns (r: Propriedade?)
    modifies if id in repository then {repository[id]} else {}
    ensures r == null <==> id !in repository
    ensures r != null ==> r == repository[id]
    ensures r != null ==> r.midias == Midias(mediaBaseUrl, root, r.id)
    ensures r != null ==> r.Persisted() == old(r.Persisted())
  {
    if id in repository {
      r := EmbarcarMidias(mediaBaseUrl, root, repository[id]);
    } else {
      r := null;
    }
  }

  /**
   * `buscar`: every record of the page the repository returned gets its media attached;
   * the page keeps its records, in their order.
   */
  method Buscar(mediaBaseUrl: string, root: MediaRoot, page: seq<Propriedade>) returns (r: seq<Propriedade>)
    modifies set p | p in page
    ensures r == page
    ensures forall p :: p in page ==> p.midias == Midias(mediaBaseUrl, root, p.id)
    ensures forall p :: p in page ==> p.Persisted() == old(p.Persisted())
  {
    var i := 0;
    while i < |page|
      invariant forall k :: 0 <= k < |page| ==> page[k].Persisted() == old(page[k].Persisted())
      invariant 0 <= i <= |page|
      invariant forall k :: 0 <= k < i ==> page[k].midias == Midias(mediaBaseUrl, root, page[k].id)
    {
      var _ := EmbarcarMidias(mediaBaseUrl, root, page[i]);
      i := i + 1;
    }
    r := page;
  }

  // ---------------------------------------------------------------------------
  // Distinct-value queries
  // ---------------------------------------------------------------------------

  /**
   * `getImovelTipos`: the types the repository returned, with repeats removed. The
   * repository returns them sorted, and then the result is strictly sorted.
   */
  function GetImovelTipos(tipos: seq<string>): (r: seq<string>)
    ensures NoDuplicates(r)
    ensures forall t :: t in r <==> t in tipos
    ensures Sorted(tipos) ==> StrictlySorted(r)
  {
    DistinctOfSortedIsStrictlySorted(tipos);
    Distinct(tipos)
  }

  lemma DistinctOfSortedIsStrictlySorted(s: seq<string>)
    ensures Sorted(s) ==> StrictlySorted(Distinct(s))
  {
    if Sorted(s) {
      var r := Distinct(s);
      DistinctKeepsFirstOccurrenceOrder(s);
      forall i, j | 0 <= i < j < |r| ensures CompareTo(r[i], r[j]) < 0 {
        var fi, fj := FirstIndex(s, r[i]), FirstIndex(s, r[j]);
        assert LessEq(s[fi], s[fj]);
        CompareToZero(r[i], r[j]);
      }
    }
  }

  /** The types come in the order in which the repository first returns them. */
  lemma GetImovelTiposKeepsFirstOccurrenceOrder(tipos: seq<string>)
    ensures var r := GetImovelTipos(tipos);
      forall i, j :: 0 <= i < j < |r| ==> FirstIndex(tipos, r[i]) < FirstIndex(tipos, r[j])
  {
    DistinctKeepsFirstOccurrenceOrder(tipos);
  }

  /** A list that already has no repeats comes back unchanged. */
  lemma GetImovelTiposOfDistinct(tipos: seq<string>)
    requires NoDuplicates(tipos)
    ensures GetImovelTipos(tipos) == tipos
  {
    DistinctOfDistinct(tipos);
  }

  /**
   * `extrairParaUmaListaDistinta`, behind `getCaracteristicasInternasTipos` and
   * `getCaracteristicasExternasTipos`: the values of all inner lists, each once.
   */
  function ExtrairParaUmaListaDistinta(lista: seq<seq<string>>): (r: seq<string>)
    ensures NoDuplicates(r)
    ensures forall x :: x in r <==> exists i :: 0 <= i < |lista| && x in lista[i]
    ensures r == [] <==> forall i :: 0 <= i < |lista| ==> lista[i] == []
  {
    Distinct(Flatten(lista))
  }

  /** The values come in the order in which they are first met, inner list after inner list. */
  lemma ExtrairKeepsFirstOccurrenceOrder(lista: seq<seq<string>>)
    ensures var r := ExtrairParaUmaListaDistinta(lista);
      forall i, j :: 0 <= i < j < |r| ==> FirstIndex(Flatten(lista), r[i]) < FirstIndex(Flatten(lista), r[j])
  {
    DistinctKeepsFirstOccurrenceOrder(Flatten(lista));
  }

  /** The feature lists ["pool", "garage"] and ["garage", "elevator"]. */
  lemma ScenarioFeatureTags()
    ensures ExtrairParaUmaListaDistinta([["pool", "garage"], ["garage", "elevator"]]) == ["pool", "garage", "elevator"]
  {
    var lista := [["pool", "garage"], ["garage", "elevator"]];
    assert Flatten(lista[2..]) == [];
    assert Flatten(lista[1..]) == ["garage", "elevator"];
    var flat := ["pool", "garage", "garage", "elevator"];
    assert Flatten(lista) == flat;
    assert flat[..1] == ["pool"] && flat[..2] == ["pool", "garage"] && flat[..3] == ["pool", "garage", "garage"];
    assert flat[..3][..2] == flat[..2] && flat[..2][..1] == flat[..1];
    assert Distinct(flat[..1]) == ["pool"];
    assert Distinct(flat[..2]) == ["pool", "garage"];
    assert "garage" in flat[..2];
    assert Distinct(flat[..3]) == ["pool", "garage"];
    assert "elevator" !in flat[..3];
  }
}
