/**
 * The project search page (app/page.tsx): eight filter criteria combined
 * with AND over an in-memory list of projects, the reset of every
 * criterion, and the de-duplicated model lists offered by the two model
 * selects.
 */
module SearchPage {
  import opened Strings
  import opened Sequences

  /** One catalogued project as the search page holds it. */
  datatype Project = Project(
    id: nat,
    name: string,
    location: string,
    date: string,
    moduleQuantity: nat,
    moduleBrand: string,
    moduleModel: string,
    inverterQuantity: nat,
    inverterBrand: string,
    inverterModel: string,
    power: string,
    distribuidora: string,
    projetista: string)

  /** The eight criteria of the filter panel. */
  datatype Criterion =
    | ModuleQuantity | ModuleBrand | ModuleModel
    | InverterQuantity | InverterBrand | InverterModel
    | Distribuidora | SearchTerm

  /** The filter state: every criterion is a string, and "" places no constraint. */
  datatype Filters = Filters(
    moduleQuantity: string,
    moduleBrand: string,
    moduleModel: string,
    inverterQuantity: string,
    inverterBrand: string,
    inverterModel: string,
    distribuidora: string,
    searchTerm: string)
  {
    /** The current value of one criterion. */
    function Get(c: Criterion): string
    {
      match c
      case ModuleQuantity => moduleQuantity
      case ModuleBrand => moduleBrand
      case ModuleModel => moduleModel
      case InverterQuantity => inverterQuantity
      case InverterBrand => inverterBrand
      case InverterModel => inverterModel
      case Distribuidora => distribuidora
      case SearchTerm => searchTerm
    }

    /**
     * What an input's `onChange` or a select's `onValueChange` does:
     * `setFilters({ ...filters, [c]: value })`.
     */
    function With(c: Criterion, value: string): (g: Filters)
      ensures g.Get(c) == value
      ensures forall d :: d != c ==> g.Get(d) == Get(d)
    {
      match c
      case ModuleQuantity => this.(moduleQuantity := value)
      case ModuleBrand => this.(moduleBrand := value)
      case ModuleModel => this.(moduleModel := value)
      case InverterQuantity => this.(inverterQuantity := value)
      case InverterBrand => this.(inverterBrand := value)
      case InverterModel => this.(inverterModel := value)
      case Distribuidora => this.(distribuidora := value)
      case SearchTerm => this.(searchTerm := value)
    }
  }

  /** The value the select items labelled "Todas as distribuidoras" / "Todos os modelos" set. */
  const AllItem: string := "all"

  /** `clearFilters`: every criterion back to "". */
  function ClearFilters(): (f: Filters)
    ensures forall c :: f.Get(c) == ""
  {
    Filters("", "", "", "", "", "", "", "")
  }

  /** Case-insensitive substring match, as `a.toLowerCase().includes(b.toLowerCase())`. */
  function IncludesIgnoringCase(text: string, part: string): bool
  {
    Contains(Lower(text), Lower(part))
  }

  /**
   * Whether project `p` satisfies criterion `c` set to `value`: the empty
   * string is falsy and places no constraint; any other value, "all"
   * included, is compared.
   */
  function Holds(p: Project, c: Criterion, value: string): bool
  {
    value == "" ||
    match c
    case SearchTerm =>
      IncludesIgnoringCase(p.name, value)
      || IncludesIgnoringCase(p.location, value)
      || IncludesIgnoringCase(p.projetista, value)
    case ModuleQuantity => NatToString(p.moduleQuantity) == value
    case ModuleBrand => IncludesIgnoringCase(p.moduleBrand, value)
    case ModuleModel => p.moduleModel == value
    case InverterQuantity => NatToString(p.inverterQuantity) == value
    case InverterBrand => IncludesIgnoringCase(p.inverterBrand, value)
    case InverterModel => p.inverterModel == value
    case Distribuidora => p.distribuidora == value
  }

  /** The predicate given to `solarProjects.filter`: all eight criteria hold. */
  function Matches(p: Project, f: Filters): bool
  {
    && Holds(p, SearchTerm, f.searchTerm)
    && Holds(p, ModuleQuantity, f.moduleQuantity)
    && Holds(p, ModuleBrand, f.moduleBrand)
    && Holds(p, ModuleModel, f.moduleModel)
    && Holds(p, InverterQuantity, f.inverterQuantity)
    && Holds(p, InverterBrand, f.inverterBrand)
    && Holds(p, InverterModel, f.inverterModel)
    && Holds(p, Distribuidora, f.distribuidora)
  }

  /** `filteredProjects`: the projects that match, in their original order. */
  function Filter(projects: seq<Project>, f: Filters): (r: seq<Project>)
    ensures IsSubsequence(r, projects)
    ensures forall i :: 0 <= i < |r| ==> Matches(r[i], f) && r[i] in projects
    ensures forall i :: 0 <= i < |projects| && Matches(projects[i], f) ==> projects[i] in r
    decreases |projects|
  {
    if projects == [] then []
    else
      var rest := Filter(projects[1..], f);
      if Matches(projects[0], f) then
        assert ([projects[0]] + rest)[1..] == rest;
        [projects[0]] + rest
      else rest
  }

  /**
   * `filter` keeps every copy of a matching project and no copy of any other:
   * each project occurs in the result as often as in the list when it
   * matches, and not at all otherwise.
   */
  lemma {:induction false} FilterCounts(projects: seq<Project>, f: Filters, q: Project)
    ensures multiset(Filter(projects, f))[q] == if Matches(q, f) then multiset(projects)[q] else 0
    decreases |projects|
  {
    if projects != [] {
      FilterCounts(projects[1..], f, q);
      assert projects == [projects[0]] + projects[1..];
    }
  }

  /** A project is kept exactly when every one of the eight criteria holds for it. */
  lemma MatchesIffEveryCriterion(p: Project, f: Filters)
    ensures Matches(p, f) <==> forall c :: Holds(p, c, f.Get(c))
  {
    if forall c :: Holds(p, c, f.Get(c)) {
      assert Holds(p, SearchTerm, f.Get(SearchTerm));
      assert Holds(p, ModuleQuantity, f.Get(ModuleQuantity));
      assert Holds(p, ModuleBrand, f.Get(ModuleBrand));
      assert Holds(p, ModuleModel, f.Get(ModuleModel));
      assert Holds(p, InverterQuantity, f.Get(InverterQuantity));
      assert Holds(p, InverterBrand, f.Get(InverterBrand));
      assert Holds(p, InverterModel, f.Get(InverterModel));
      assert Holds(p, Distribuidora, f.Get(Distribuidora));
    }
    if Matches(p, f) {
      forall c ensures Holds(p, c, f.Get(c)) {
        match c
        case _ =>
      }
    }
  }

  /** With every criterion empty, which is what `clearFilters` sets, nothing is filtered out. */
  lemma {:induction false} ClearFiltersKeepsAll(projects: seq<Project>)
    ensures Filter(projects, ClearFilters()) == projects
    decreases |projects|
  {
    if projects != [] {
      ClearFiltersKeepsAll(projects[1..]);
      assert projects == [projects[0]] + projects[1..];
    }
  }

  /** Re-filtering by weaker criteria, or filtering by stronger ones after weaker ones, is exact. */
  lemma {:induction false} FilterOfFilter(projects: seq<Project>, f: Filters, g: Filters)
    requires forall p :: Matches(p, g) ==> Matches(p, f)
    ensures Filter(Filter(projects, f), g) == Filter(projects, g)
    decreases |projects|
  {
    if projects != [] {
      FilterOfFilter(projects[1..], f, g);
      if Matches(projects[0], f) {
        assert Filter(projects, f)[1..] == Filter(projects[1..], f);
      }
    }
  }

  /** `g` constrains at least what `f` does: every criterion of `f` is empty or equal in `g`. */
  ghost predicate Narrows(g: Filters, f: Filters)
  {
    forall c :: f.Get(c) == "" || g.Get(c) == f.Get(c)
  }

  /**
   * Setting more criteria (leaving the ones already set unchanged) can only
   * shrink the result, and the narrower result is the wider one filtered again.
   */
  lemma FilterNarrowing(projects: seq<Project>, f: Filters, g: Filters)
    requires Narrows(g, f)
    ensures Filter(projects, g) == Filter(Filter(projects, f), g)
    ensures IsSubsequence(Filter(projects, g), Filter(projects, f))
    ensures |Filter(projects, g)| <= |Filter(projects, f)|
  {
    forall p | Matches(p, g) ensures Matches(p, f) {
      MatchesIffEveryCriterion(p, g);
      MatchesIffEveryCriterion(p, f);
    }
    FilterOfFilter(projects, f, g);
    SubsequenceElements(Filter(projects, g), Filter(projects, f));
  }

  /**
   * Setting one more criterion that was empty is the same as filtering the
   * previous result by that criterion alone: the criteria compose by AND.
   */
  lemma AddCriterion(projects: seq<Project>, f: Filters, c: Criterion, value: string)
    requires f.Get(c) == ""
    ensures Filter(projects, f.With(c, value))
         == Filter(Filter(projects, f), ClearFilters().With(c, value))
    ensures IsSubsequence(Filter(projects, f.With(c, value)), Filter(projects, f))
  {
    var g := f.With(c, value);
    var h := ClearFilters().With(c, value);
    FilterNarrowing(projects, f, g);
    forall p | Matches(p, f) ensures Matches(p, g) == Matches(p, h) {
      MatchesIffEveryCriterion(p, f);
      MatchesIffEveryCriterion(p, g);
      MatchesIffEveryCriterion(p, h);
    }
    FilterSameOn(Filter(projects, f), g, h);
    FilterOfFilter(projects, f, g);
  }

  /** Two filter states that agree on every project of a list select the same projects. */
  lemma {:induction false} FilterSameOn(projects: seq<Project>, g: Filters, h: Filters)
    requires forall i :: 0 <= i < |projects| ==> Matches(projects[i], g) == Matches(projects[i], h)
    ensures Filter(projects, g) == Filter(projects, h)
    decreases |projects|
  {
    if projects != [] {
      FilterSameOn(projects[1..], g, h);
    }
  }

  /** Applying the same filter twice changes nothing. */
  lemma FilterIdempotent(projects: seq<Project>, f: Filters)
    ensures Filter(Filter(projects, f), f) == Filter(projects, f)
  {
    FilterOfFilter(projects, f, f);
  }

  /**
   * A non-empty search term keeps a project exactly when its lower-cased
   * text occurs in the lower-cased name, location or projetista.
   */
  lemma SearchTermIff(p: Project, term: string)
    requires term != ""
    ensures Holds(p, SearchTerm, term) <==>
      || (exists i :: OccursAt(Lower(p.name), Lower(term), i))
      || (exists i :: OccursAt(Lower(p.location), Lower(term), i))
      || (exists i :: OccursAt(Lower(p.projetista), Lower(term), i))
  {
    ContainsIff(Lower(p.name), Lower(term));
    ContainsIff(Lower(p.location), Lower(term));
    ContainsIff(Lower(p.projetista), Lower(term));
  }

  /**
   * A quantity criterion matches only the canonical decimal numeral of the
   * quantity: digits only, no sign, no leading zero.
   */
  lemma QuantityCriterionIff(p: Project, value: string)
    requires value != ""
    ensures Holds(p, ModuleQuantity, value) <==>
      IsCanonicalDecimal(value) && ParseDecimal(value) == p.moduleQuantity
    ensures Holds(p, InverterQuantity, value) <==>
      IsCanonicalDecimal(value) && ParseDecimal(value) == p.inverterQuantity
  {
    NatToStringIff(p.moduleQuantity, value);
    NatToStringIff(p.inverterQuantity, value);
  }

  /** "20" matches a quantity of 20, while "020" matches no quantity at all. */
  lemma QuantityLeadingZero(p: Project)
    ensures p.moduleQuantity == 20 ==> Holds(p, ModuleQuantity, "20")
    ensures !Holds(p, ModuleQuantity, "020") && !Holds(p, InverterQuantity, "020")
  {
    QuantityCriterionIff(p, "020");
    if p.moduleQuantity == 20 {
      QuantityCriterionIff(p, "20");
      assert "20"[..1] == "2";
    }
  }

  /**
   * A non-empty brand criterion keeps a project exactly when its lower-cased
   * text occurs in the project's lower-cased brand, for modules and inverters.
   */
  lemma BrandCriterionIff(p: Project, value: string)
    requires value != ""
    ensures Holds(p, ModuleBrand, value) <==> exists i :: OccursAt(Lower(p.moduleBrand), Lower(value), i)
    ensures Holds(p, InverterBrand, value) <==> exists i :: OccursAt(Lower(p.inverterBrand), Lower(value), i)
  {
    ContainsIff(Lower(p.moduleBrand), Lower(value));
    ContainsIff(Lower(p.inverterBrand), Lower(value));
  }

  /** Brand criteria ignore case: "jinko" finds "Jinko Solar", "Trina" does not. */
  lemma BrandIgnoresCase(p: Project)
    requires p.moduleBrand == "Jinko Solar"
    ensures Holds(p, ModuleBrand, "jinko")
    ensures !Holds(p, ModuleBrand, "Trina")
  {
    LowerExamples();
    ContainsPrefix("jinko solar", 5);
    assert "jinko solar"[..5] == "jinko";
    ContainsNeedsFirstChar("jinko solar", "trina");
  }

  lemma LowerExamples()
    ensures Lower("Jinko Solar") == "jinko solar"
    ensures Lower("jinko") == "jinko"
    ensures Lower("Trina") == "trina"
  {
  }

  /**
   * Model and distribuidora criteria are exact: a non-empty value, the
   * select's "all" included, keeps only projects carrying that very value.
   */
  lemma ExactCriteriaConstrain(projects: seq<Project>, f: Filters)
    ensures f.moduleModel != "" ==>
      forall p :: p in Filter(projects, f) ==> p.moduleModel == f.moduleModel
    ensures f.inverterModel != "" ==>
      forall p :: p in Filter(projects, f) ==> p.inverterModel == f.inverterModel
    ensures f.distribuidora != "" ==>
      forall p :: p in Filter(projects, f) ==> p.distribuidora == f.distribuidora
  {
  }

  /** Choosing the "all" item therefore empties the list unless some project is literally named so. */
  lemma AllItemConstrains(projects: seq<Project>, f: Filters, c: Criterion)
    requires c == ModuleModel || c == InverterModel || c == Distribuidora
    requires c == ModuleModel ==> forall p :: p in projects ==> p.moduleModel != AllItem
    requires c == InverterModel ==> forall p :: p in projects ==> p.inverterModel != AllItem
    requires c == Distribuidora ==> forall p :: p in projects ==> p.distribuidora != AllItem
    ensures Filter(projects, f.With(c, AllItem)) == []
  {
    assert forall p :: p in projects ==> !Matches(p, f.With(c, AllItem));
  }

  // ----- the model selects -----

  /** `uniqueModuleModels`: each module model of the list once, in the order it first appears. */
  function UniqueModuleModels(projects: seq<Project>): seq<string>
  {
    Dedup(ModuleModels(projects))
  }

  /** `uniqueInverterModels`: each inverter model of the list once, in the order it first appears. */
  function UniqueInverterModels(projects: seq<Project>): seq<string>
  {
    Dedup(InverterModels(projects))
  }

  /** The models column of the list, as `solarProjects.map((p) => p.moduleModel)`. */
  function ModuleModels(projects: seq<Project>): (ms: seq<string>)
    ensures |ms| == |projects|
    ensures forall i :: 0 <= i < |projects| ==> ms[i] == projects[i].moduleModel
  {
    seq(|projects|, i requires 0 <= i < |projects| => projects[i].moduleModel)
  }

  /** The models column of the list, as `solarProjects.map((p) => p.inverterModel)`. */
  function InverterModels(projects: seq<Project>): (ms: seq<string>)
    ensures |ms| == |projects|
    ensures forall i :: 0 <= i < |projects| ==> ms[i] == projects[i].inverterModel
  {
    seq(|projects|, i requires 0 <= i < |projects| => projects[i].inverterModel)
  }

  /**
   * Each module model of the list is offered exactly once, nothing else is
   * offered, and a model is offered before another exactly when the first
   * project carrying it comes before the first project carrying the other.
   */
  lemma UniqueModuleModelsExactlyOnce(projects: seq<Project>, m: string)
    ensures Distinct(UniqueModuleModels(projects))
    ensures IsSubsequence(UniqueModuleModels(projects), ModuleModels(projects))
    ensures forall i, j :: 0 <= i < j < |UniqueModuleModels(projects)| ==>
      FirstIndex(ModuleModels(projects), UniqueModuleModels(projects)[i])
      < FirstIndex(ModuleModels(projects), UniqueModuleModels(projects)[j])
    ensures m in UniqueModuleModels(projects) <==>
      exists i :: 0 <= i < |projects| && projects[i].moduleModel == m
  {
    var ms := ModuleModels(projects);
    DedupIsSubsequence(ms);
    DedupFirstAppearance(ms);
    if m in UniqueModuleModels(projects) {
      var k :| 0 <= k < |ms| && ms[k] == m;
    }
  }

  /**
   * Each inverter model of the list is offered exactly once, nothing else
   * is offered, and the models are offered in the order of the first
   * project carrying each.
   */
  lemma UniqueInverterModelsExactlyOnce(projects: seq<Project>, m: string)
    ensures Distinct(UniqueInverterModels(projects))
    ensures IsSubsequence(UniqueInverterModels(projects), InverterModels(projects))
    ensures forall i, j :: 0 <= i < j < |UniqueInverterModels(projects)| ==>
      FirstIndex(InverterModels(projects), UniqueInverterModels(projects)[i])
      < FirstIndex(InverterModels(projects), UniqueInverterModels(projects)[j])
    ensures m in UniqueInverterModels(projects) <==>
      exists i :: 0 <= i < |projects| && projects[i].inverterModel == m
  {
    var ms := InverterModels(projects);
    DedupIsSubsequence(ms);
    DedupFirstAppearance(ms);
    if m in UniqueInverterModels(projects) {
      var k :| 0 <= k < |ms| && ms[k] == m;
    }
  }

  /** Picking any offered module model, with the other criteria cleared, finds at least one project. */
  lemma OfferedModelFindsProject(projects: seq<Project>, m: string)
    requires m in UniqueModuleModels(projects)
    ensures Filter(projects, ClearFilters().With(ModuleModel, m)) != []
  {
    UniqueModuleModelsExactlyOnce(projects, m);
    var i :| 0 <= i < |projects| && projects[i].moduleModel == m;
    var f := ClearFilters().With(ModuleModel, m);
    MatchesIffEveryCriterion(projects[i], f);
    assert projects[i] in Filter(projects, f);
  }

  // ----- the sample catalogue the page ships with -----

  /** `solarProjects`, the page's built-in list (its attachment lists are not modelled). */
  const SolarProjects: seq<Project> := [
    Project(1, "Residencial Vila Nova", "São Paulo, SP", "2024-01-15",
      20, "Canadian Solar", "CS3W-400P", 1, "Fronius", "Primo 8.2-1",
      "8.0 kWp", "CPFL Energia", "Eng. Carlos Santos"),
    Project(2, "Comercial Tech Center", "Rio de Janeiro, RJ", "2024-02-20",
      50, "Jinko Solar", "JKM540M-7RL3", 2, "SMA", "STP 15000TL-30",
      "27.0 kWp", "Light", "Eng. Maria Oliveira"),
    Project(3, "Residencial Jardim América", "Belo Horizonte, MG", "2024-03-10",
      15, "Canadian Solar", "CS3W-400P", 12, "Enphase", "IQ7+",
      "6.0 kWp", "Cemig", "Eng. Pedro Lima"),
    Project(4, "Industrial Metalúrgica", "Campinas, SP", "2024-01-30",
      100, "Trina Solar", "TSM-DE09.08", 3, "Huawei", "SUN2000-50KTL-M0",
      "54.0 kWp", "CPFL Energia", "Eng. Ana Costa"),
    Project(5, "Residencial Condomínio Solar", "Brasília, DF", "2024-02-05",
      25, "Jinko Solar", "JKM540M-7RL3", 1, "Fronius", "Symo 12.5-3-M",
      "13.5 kWp", "CEB", "Eng. Roberto Silva")
  ]

  /** On the built-in list, picking "all" in any of the three selects shows no project at all. */
  lemma AllItemEmptiesSampleList(c: Criterion)
    requires c == ModuleModel || c == InverterModel || c == Distribuidora
    ensures Filter(SolarProjects, ClearFilters().With(c, AllItem)) == []
  {
    AllItemConstrains(SolarProjects, ClearFilters(), c);
  }

  /** With every other criterion cleared, a project is kept exactly when the one set criterion holds. */
  lemma SingleCriterion(p: Project, c: Criterion, value: string)
    ensures Matches(p, ClearFilters().With(c, value)) <==> Holds(p, c, value)
  {
    MatchesIffEveryCriterion(p, ClearFilters().With(c, value));
  }

  /** On the built-in list, the distribuidora "CPFL Energia" selects projects 1 and 4, in that order. */
  lemma DistribuidoraOnSampleList()
    ensures Filter(SolarProjects, ClearFilters().With(Distribuidora, "CPFL Energia"))
         == [SolarProjects[0], SolarProjects[3]]
  {
    var f := ClearFilters().With(Distribuidora, "CPFL Energia");
    var ps := SolarProjects;
    forall k | 0 <= k < 5 ensures Matches(ps[k], f) <==> k == 0 || k == 3 {
      SingleCriterion(ps[k], Distribuidora, "CPFL Energia");
    }
    assert ps[4..][1..] == [];
    assert ps[3..][1..] == ps[4..];
    assert ps[2..][1..] == ps[3..];
    assert ps[1..][1..] == ps[2..];
    assert Filter(ps[3..], f) == [ps[3]];
    assert Filter(ps[1..], f) == [ps[3]];
  }

  /** On the built-in list, module quantity "20" selects project 1 alone and "020" selects nothing. */
  lemma ModuleQuantityOnSampleList()
    ensures Filter(SolarProjects, ClearFilters().With(ModuleQuantity, "20")) == [SolarProjects[0]]
    ensures Filter(SolarProjects, ClearFilters().With(ModuleQuantity, "020")) == []
  {
    var f := ClearFilters().With(ModuleQuantity, "20");
    var ps := SolarProjects;
    forall k | 0 <= k < 5 ensures Matches(ps[k], f) <==> k == 0 {
      SingleCriterion(ps[k], ModuleQuantity, "20");
      QuantityCriterionIff(ps[k], "20");
      assert ParseDecimal("20") == 20 by {
        assert "20"[..1] == "2";
      }
    }
    assert ps[4..][1..] == [];
    assert ps[3..][1..] == ps[4..];
    assert ps[2..][1..] == ps[3..];
    assert ps[1..][1..] == ps[2..];
    assert Filter(ps[1..], f) == [];
    var g := ClearFilters().With(ModuleQuantity, "020");
    forall k | 0 <= k < 5 ensures !Matches(ps[k], g) {
      SingleCriterion(ps[k], ModuleQuantity, "020");
      QuantityLeadingZero(ps[k]);
    }
    assert Filter(ps[1..], g) == [];
  }
}
