/** The monthly population update (`update_populations.py`): rotate the
    backups of `data/cities.csv`, fill in missing populations from a city
    registry looked up by two-letter country code, recompute population
    density, and save the table with a fixed set of columns. The registry is a
    parameter; a call that raised is `None`. */
module UpdatePopulations {
  import opened Wrappers
  import opened Numeric
  import opened Calendar
  import opened Dataset
  import opened Backups
  import opened Text

  const BACKUP_PREFIX := "cities_backup_"

  // ---------------------------------------------------------------------------
  // Backup rotation: if five or more backups exist, the oldest one is removed;
  // then a copy of the CSV named after today, if the CSV exists.

  /** What the single removal leaves of a sorted listing. */
  function PruneOne(s: seq<string>): (r: seq<string>)
    ensures |s| >= RETENTION ==> |r| == |s| - 1 && r == s[1..]
    ensures |s| < RETENTION ==> r == s
    ensures Sorted(s) ==> Sorted(r)
  {
    if |s| >= RETENTION then s[1..] else s
  }

  /** The one name removed is the oldest: it sorts before every survivor and
      is gone from the listing. */
  lemma PruneOneRemovesOldest(s: seq<string>)
    requires Sorted(s) && |s| >= RETENTION
    ensures s[0] !in PruneOne(s)
    ensures forall k :: 0 <= k < |PruneOne(s)| ==> LexLess(s[0], PruneOne(s)[k])
  {
    LexIrreflexive(s[0]);
    forall k | 0 <= k < |PruneOne(s)| ensures LexLess(s[0], PruneOne(s)[k]) {
      assert PruneOne(s)[k] == s[k + 1];
    }
  }

  /** The listing after one run: one removal at most; the new backup is added
      only when the CSV exists. */
  function AfterRun(files: seq<string>, csvExists: bool, name: string): (r: seq<string>)
    requires Sorted(files)
    ensures Sorted(r)
    ensures forall y :: y in r <==> y in PruneOne(files) || (csvExists && y == name)
  {
    if csvExists then Insert(PruneOne(files), name) else PruneOne(files)
  }

  /** A directory holding at most five backups holds at most five after a run. */
  lemma AfterRunKeepsAtMostFive(files: seq<string>, csvExists: bool, name: string)
    requires Sorted(files) && |files| <= RETENTION
    ensures |AfterRun(files, csvExists, name)| <= RETENTION
  {
  }

  /** A directory holding five or more backups never gets smaller through a
      run that adds a backup for a new day: one out, one in. */
  lemma AfterRunNeverShrinks(files: seq<string>, name: string)
    requires Sorted(files) && |files| >= RETENTION && name !in files
    ensures |AfterRun(files, true, name)| == |files|
  {
  }

  method RotateBackups(dir: BackupDir, csvExists: bool, today: Date)
    requires dir.Valid() && Valid(today)
    modifies dir
    ensures dir.Valid()
    ensures dir.files == AfterRun(old(dir.files), csvExists, BackupName(BACKUP_PREFIX, today))
  {
    var backupFiles := dir.files;
    if |backupFiles| >= RETENTION {
      var oldest := backupFiles[0];
      dir.Remove(oldest);
      assert dir.files == backupFiles[1..] by {
        SortedUnique(dir.files, backupFiles[1..]);
      }
    }
    if csvExists {
      dir.CopyIn(BackupName(BACKUP_PREFIX, today));
    }
  }

  // ---------------------------------------------------------------------------
  // The country-code table: `dict(zip(names, codes))` over the reference
  // table, then `update` with the fixed overrides below.

  /** The value the last pair with key `k` gives: what a dict built from the
      pairs in order holds for `k`. */
  function LastValue(pairs: seq<(string, string)>, k: string): (r: Option<string>)
    ensures r.None? <==> forall i :: 0 <= i < |pairs| ==> pairs[i].0 != k
    ensures r.Some? ==> exists i ::
      (0 <= i < |pairs| && pairs[i] == (k, r.value)
       && forall j :: i < j < |pairs| ==> pairs[j].0 != k)
  {
    if pairs == [] then None
    else if pairs[|pairs| - 1].0 == k then Some(pairs[|pairs| - 1].1)
    else LastValue(pairs[..|pairs| - 1], k)
  }

  /** `m.get(k)`. */
  function Lookup(m: map<string, string>, k: string): (r: Option<string>)
    ensures r.Some? <==> k in m
    ensures r.Some? ==> r.value == m[k]
  {
    if k in m then Some(m[k]) else None
  }

  /** Builds the table: every reference pair in order, then every override
      in order. An override always wins; otherwise the last reference pair
      with that name gives the code. */
  method BuildCountryCodes(reference: seq<(string, string)>, overrides: seq<(string, string)>)
    returns (codes: map<string, string>)
    ensures forall k ::
      (Lookup(codes, k) ==
       if LastValue(overrides, k).Some? then LastValue(overrides, k) else LastValue(reference, k))
  {
    codes := map[];
    var i := 0;
    while i < |reference|
      invariant 0 <= i <= |reference|
      invariant forall k :: Lookup(codes, k) == LastValue(reference[..i], k)
    {
      assert reference[..i + 1][..i] == reference[..i];
      codes := codes[reference[i].0 := reference[i].1];
      i := i + 1;
    }
    assert reference[..i] == reference;
    var j := 0;
    while j < |overrides|
      invariant 0 <= j <= |overrides|
      invariant forall k ::
        (Lookup(codes, k) ==
         if LastValue(overrides[..j], k).Some? then LastValue(overrides[..j], k) else LastValue(reference, k))
    {
      assert overrides[..j + 1][..j] == overrides[..j];
      codes := codes[overrides[j].0 := overrides[j].1];
      j := j + 1;
    }
    assert overrides[..j] == overrides;
  }

  /** The override table written into the script, in its order. Two names
      appear twice with the same code. */
  const OVERRIDES: seq<(string, string)> := [
    ("UK", "GB"), ("USA", "US"), ("Palestine", "PS"), ("Russia", "RU"),
    ("Iran", "IR"), ("Viet Nam", "VN"), ("Korea, South", "KR"), ("Korea, North", "KP"),
    ("Syria", "SY"), ("Tanzania", "TZ"), ("Moldova", "MD"), ("Bolivia", "BO"),
    ("DRC", "CD"), ("Czechia", "CZ"), ("Laos", "LA"), ("Brunei", "BN"),
    ("Cabo Verde", "CV"), ("Eswatini", "SZ"), ("Micronesia", "FM"), ("Saint Kitts and Nevis", "KN"),
    ("Saint Lucia", "LC"), ("Saint Vincent and the Grenadines", "VC"), ("Sao Tome and Principe", "ST"), ("Timor-Leste", "TL"),
    ("Ivory Coast", "CI"), ("North Macedonia", "MK"), ("Burma", "MM"), ("Congo", "CG"),
    ("Swaziland", "SZ"), ("Cape Verde", "CV"), ("East Timor", "TL"), ("Vatican City", "VA"),
    ("Palestinian Territories", "PS"), ("Occupied Palestine", "PS"), ("Republic of the Congo", "CG"), ("Democratic Republic of the Congo", "CD"),
    ("The Gambia", "GM"), ("Bahamas", "BS"), ("Gambia", "GM"), ("Congo-Brazzaville", "CG"),
    ("Congo-Kinshasa", "CD"), ("Syrian Arab Republic", "SY"), ("Venezuela, RB", "VE"), ("Yemen, Rep.", "YE"),
    ("Iran, Islamic Rep.", "IR"), ("Korea, Dem. People's Rep.", "KP"), ("Korea, Rep.", "KR"), ("Lao PDR", "LA"),
    ("Russian Federation", "RU"), ("Tanzania, United Rep.", "TZ"), ("United Kingdom", "GB"), ("United States", "US"),
    ("PRC", "CN"), ("Deutschland", "DE"), ("España", "ES"), ("Italia", "IT"),
    ("Nippon", "JP"), ("Brasil", "BR"), ("México", "MX"), ("Türkiye", "TR"),
    ("Ελλάδα", "GR"), ("Sverige", "SE"), ("Suomi", "FI"), ("Nederland", "NL"),
    ("Polska", "PL"), ("Česká republika", "CZ"), ("Magyarország", "HU"), ("Österreich", "AT"),
    ("Schweiz", "CH"), ("Schweizerische Eidgenossenschaft", "CH"), ("Suisse", "CH"), ("Danmark", "DK"),
    ("Norge", "NO"), ("Ísland", "IS"), ("Ελλάδα", "GR"), ("ประเทศไทย", "TH"),
    ("المملكة العربية السعودية", "SA"), ("الإمارات العربية المتحدة", "AE"), ("대한민국", "KR"), ("中华人民共和国", "CN"),
    ("Российская Федерация", "RU"), ("الأردن", "JO"), ("لبنان", "LB"), ("مصر", "EG"),
    ("اليمن", "YE"), ("العراق", "IQ"), ("سوريا", "SY"), ("فلسطين", "PS"),
    ("تونس", "TN"), ("المغرب", "MA"), ("الجزائر", "DZ"), ("ليبيا", "LY"),
    ("السودان", "SD"), ("Somaliland", "SO"), ("جمهورية السودان", "SD"), ("جمهورية مصر العربية", "EG"),
    ("جمهورية العراق", "IQ"), ("جمهورية تونس", "TN"), ("المملكة المغربية", "MA"), ("جمهورية الجزائر", "DZ"),
    ("دولة ليبيا", "LY"), ("جمهورية الصومال", "SO"), ("جمهورية اليمن", "YE"), ("دولة الإمارات العربية المتحدة", "AE"),
    ("المملكة العربية السعودية", "SA"), ("دولة الكويت", "KW"), ("دولة قطر", "QA"), ("سلطنة عمان", "OM"),
    ("دولة البحرين", "BH"), ("جمهورية لبنان", "LB"), ("المملكة الأردنية الهاشمية", "JO"), ("دولة فلسطين", "PS"),
    ("المملكة الأردنية ", "JO")
  ]

  /** `country_to_alpha2` as the script builds it from the reference table
      `all.csv`: the overrides win, so for instance the table's last entries
      give "PS" for "دولة فلسطين" and "JO" for "المملكة الأردنية " (with its
      trailing space) whatever the reference table says. */
  method CountryToAlpha2(reference: seq<(string, string)>) returns (codes: map<string, string>)
    ensures forall k ::
      (Lookup(codes, k) ==
       if LastValue(OVERRIDES, k).Some? then LastValue(OVERRIDES, k) else LastValue(reference, k))
    ensures Lookup(codes, "دولة فلسطين") == Some("PS")
    ensures Lookup(codes, "المملكة الأردنية ") == Some("JO")
  {
    codes := BuildCountryCodes(reference, OVERRIDES);
    OverridesLastEntries();
  }

  /** The last two overrides are the last entries for their names. */
  lemma OverridesLastEntries()
    ensures LastValue(OVERRIDES, "دولة فلسطين") == Some("PS")
    ensures LastValue(OVERRIDES, "المملكة الأردنية ") == Some("JO")
  {
    var n := |OVERRIDES|;
    assert OVERRIDES[n - 1] == ("المملكة الأردنية ", "JO");
    assert OVERRIDES[n - 2] == ("دولة فلسطين", "PS");
    assert OVERRIDES[..n - 1][n - 2] == OVERRIDES[n - 2];
  }

  // ---------------------------------------------------------------------------
  // fetch_population and update_populations

  /** One entry of the registry reply's `data` list. */
  datatype RegistryCity = RegistryCity(population: Option<int>)

  /** The city registry asked for a name prefix and a country code, limit one;
      `None` when the request, the decoding or the `data` lookup raised. */
  type Registry = (string, string) -> Option<seq<RegistryCity>>

  /** `code = country_to_alpha2.get(country)` followed by `if not code`: an
      absent or empty code means "no code". */
  function CodeFor(codes: map<string, string>, country: string): (r: Option<string>)
    ensures r.Some? <==> country in codes && codes[country] != ""
    ensures r.Some? ==> r.value == codes[country]
  {
    if country in codes && codes[country] != "" then Some(codes[country]) else None
  }

  /** `fetch_population(city, country)`: the first registry entry's population;
      `None` without asking the registry when the country has no code, and
      `None` when the registry fails or finds nothing. */
  function FetchPopulation(city: string, country: string, codes: map<string, string>,
                           registry: Registry): (r: Option<int>)
    ensures CodeFor(codes, country).None? ==> r.None?
    ensures r.Some? <==>
      CodeFor(codes, country).Some?
      && registry(city, CodeFor(codes, country).value).Some?
      && |registry(city, CodeFor(codes, country).value).value| > 0
      && registry(city, CodeFor(codes, country).value).value[0].population.Some?
    ensures r.Some? ==> r == registry(city, CodeFor(codes, country).value).value[0].population
  {
    match CodeFor(codes, country)
    case None => None
    case Some(code) =>
      match registry(city, code)
      case None => None
      case Some(data) => if |data| > 0 then data[0].population else None
  }

  /** Without a code the registry is not consulted: the result is the same
      whatever the registry would answer. */
  lemma NoCodeNoRequest(city: string, country: string, codes: map<string, string>,
                        registry1: Registry, registry2: Registry)
    requires CodeFor(codes, country).None?
    ensures FetchPopulation(city, country, codes, registry1)
         == FetchPopulation(city, country, codes, registry2) == None
  {
  }

  /** `update_populations(row)`: a present population is kept; only a missing
      one is fetched. */
  function UpdatedPopulation(row: CityRecord, codes: map<string, string>,
                             registry: Registry): (p: Option<int>)
    ensures row.population.Some? ==> p == row.population
    ensures row.population.None? ==> p == FetchPopulation(row.city, row.country, codes, registry)
  {
    if row.population.Some? then row.population
    else FetchPopulation(row.city, row.country, codes, registry)
  }

  /** `df["Population"] = df.apply(update_populations, axis=1)`. */
  function FillPopulations(rows: seq<CityRecord>, codes: map<string, string>,
                           registry: Registry): (r: seq<CityRecord>)
    ensures |r| == |rows|
    ensures forall i :: 0 <= i < |rows| ==>
      r[i] == rows[i].(population := UpdatedPopulation(rows[i], codes, registry))
  {
    if rows == [] then []
    else [rows[0].(population := UpdatedPopulation(rows[0], codes, registry))]
         + FillPopulations(rows[1..], codes, registry)
  }

  /** Filling never loses a population and never touches another column; a
      table with every population present comes back unchanged. */
  lemma FillPopulationsKeeps(rows: seq<CityRecord>, codes: map<string, string>, registry: Registry)
    ensures forall i :: 0 <= i < |rows| && rows[i].population.Some? ==>
      FillPopulations(rows, codes, registry)[i] == rows[i]
    ensures forall i :: 0 <= i < |rows| ==>
      FillPopulations(rows, codes, registry)[i].(population := rows[i].population) == rows[i]
  {
  }

  /** Filling twice against the same registry is filling once. */
  lemma {:induction false} FillPopulationsIdempotent(rows: seq<CityRecord>, codes: map<string, string>,
                                                     registry: Registry)
    ensures FillPopulations(FillPopulations(rows, codes, registry), codes, registry)
         == FillPopulations(rows, codes, registry)
  {
    var once := FillPopulations(rows, codes, registry);
    var twice := FillPopulations(once, codes, registry);
    forall i | 0 <= i < |rows| ensures twice[i] == once[i] {
      if rows[i].population.None? {
        assert once[i].city == rows[i].city && once[i].country == rows[i].country;
      }
    }
  }

  // ---------------------------------------------------------------------------
  // Population density: `round(Population / Area_km2, 2)` when both are
  // present and the area is positive, otherwise empty.

  function Density(population: Option<int>, area: Option<real>): (d: Option<real>)
    ensures d.None? <==> population.None? || area.None? || area.value <= 0.0
    ensures d.Some? ==> -0.005 <= d.value - population.value as real / area.value <= 0.005
    ensures d.Some? ==> (d.value * 100.0).Floor as real == d.value * 100.0
    ensures d.Some? ==> d.value == Round2(population.value as real / area.value)
  {
    if population.Some? && area.Some? && area.value > 0.0 then
      Some(Round2(population.value as real / area.value))
    else None
  }

  /** The density column recomputed for every row from that row alone. */
  function RecomputeDensity(rows: seq<CityRecord>): (r: seq<CityRecord>)
    ensures |r| == |rows|
    ensures forall i :: 0 <= i < |rows| ==>
      r[i] == rows[i].(populationDensity := Density(rows[i].population, rows[i].areaKm2))
  {
    if rows == [] then []
    else [rows[0].(populationDensity := Density(rows[0].population, rows[0].areaKm2))]
         + RecomputeDensity(rows[1..])
  }

  /** The rule reads only Population and Area_km2, which it does not change,
      so recomputing twice is recomputing once. */
  lemma RecomputeDensityIdempotent(rows: seq<CityRecord>)
    ensures RecomputeDensity(RecomputeDensity(rows)) == RecomputeDensity(rows)
  {
  }

  // ---------------------------------------------------------------------------
  // The saved columns: Latitude and Longitude dropped, the rest in this order.

  /** A saved row: the columns City, Country, Population, Area_km2,
      PopulationDensity and Average_Temp_C, in that order. */
  datatype SavedRecord = SavedRecord(
    city: string,
    country: string,
    population: Option<int>,
    areaKm2: Option<real>,
    populationDensity: Option<real>,
    averageTempC: Option<int>)

  /** Saving loses the coordinates and nothing else. */
  function Saved(row: CityRecord): (r: SavedRecord)
    ensures Restored(r) == row.(latitude := None, longitude := None)
  {
    SavedRecord(row.city, row.country, row.population, row.areaKm2,
                row.populationDensity, row.averageTempC)
  }

  /** A saved row read back: the dropped coordinates are empty. */
  function Restored(s: SavedRecord): CityRecord {
    CityRecord(s.city, s.country, s.population, s.areaKm2, s.populationDensity,
               s.averageTempC, None, None)
  }

  /** `df[columns_order]` after dropping the coordinates: one saved row per
      row, in order, losing exactly the coordinates. */
  function Project(rows: seq<CityRecord>): (r: seq<SavedRecord>)
    ensures |r| == |rows|
    ensures forall i :: 0 <= i < |rows| ==>
      Restored(r[i]) == rows[i].(latitude := None, longitude := None)
  {
    if rows == [] then [] else [Saved(rows[0])] + Project(rows[1..])
  }

  /** The table as saved: populations filled, density recomputed, columns
      projected. Rows and their order are kept; a present population is
      unchanged; and every saved density agrees with the saved population and
      area. */
  function MonthlyUpdate(rows: seq<CityRecord>, codes: map<string, string>,
                         registry: Registry): (r: seq<SavedRecord>)
    ensures |r| == |rows|
    ensures forall i :: 0 <= i < |rows| ==>
      r[i].city == rows[i].city && r[i].country == rows[i].country
      && r[i].areaKm2 == rows[i].areaKm2 && r[i].averageTempC == rows[i].averageTempC
    ensures forall i :: 0 <= i < |rows| && rows[i].population.Some? ==>
      r[i].population == rows[i].population
    ensures forall i :: 0 <= i < |rows| && rows[i].population.None? ==>
      r[i].population == FetchPopulation(rows[i].city, rows[i].country, codes, registry)
    ensures forall i :: 0 <= i < |rows| ==>
      r[i].populationDensity == Density(r[i].population, r[i].areaKm2)
  {
    Project(RecomputeDensity(FillPopulations(rows, codes, registry)))
  }
}
