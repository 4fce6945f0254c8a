/** The yearly temperature update (`update-temp.py`): rotate the backups of
    `data/cities.csv`, then for every city ask a geocoding service for its
    coordinates and a climate archive for last year's daily mean temperatures,
    and store the rounded mean of those temperatures in `Average_Temp_C`.
    The two web services are parameters; a call that raised is `None`. */
module UpdateTemp {
  import opened Wrappers
  import opened Numeric
  import opened Calendar
  import opened Dataset
  import opened Backups
  import opened Text

  const BACKUP_PREFIX := "backup_"

  // ---------------------------------------------------------------------------
  // Backup rotation: `while len(backup_files) >= 5: os.remove(backup_files.pop(0))`,
  // then a copy of the CSV named after today, if the CSV exists.

  /** What the pruning loop leaves of a sorted listing: the newest four names
      when there were five or more, otherwise all of them. */
  function PruneAll(s: seq<string>): (r: seq<string>)
    ensures |s| >= RETENTION ==> |r| == RETENTION - 1
    ensures |s| < RETENTION ==> r == s
    ensures |r| <= |s| && r == s[|s| - |r|..]
    ensures Sorted(s) ==> Sorted(r)
  {
    if |s| >= RETENTION then s[|s| - (RETENTION - 1)..] else s
  }

  /** Only the oldest names are pruned: every removed name sorts before every
      kept one. */
  lemma PruneAllKeepsNewest(s: seq<string>, x: string, y: string)
    requires Sorted(s)
    requires x in s && x !in PruneAll(s) && y in PruneAll(s)
    ensures LexLess(x, y)
  {
    var r := PruneAll(s);
    var i :| 0 <= i < |s| && s[i] == x;
    var j :| 0 <= j < |r| && r[j] == y;
    assert s[|s| - |r| + j] == y;
  }

  /** The listing after one run: pruning always happens; the new backup is
      added only when the CSV exists. At most five backups remain. */
  function AfterRun(files: seq<string>, csvExists: bool, name: string): (r: seq<string>)
    requires Sorted(files)
    ensures Sorted(r)
    ensures forall y :: y in r <==> y in PruneAll(files) || (csvExists && y == name)
    ensures |r| <= RETENTION
  {
    if csvExists then Insert(PruneAll(files), name) else PruneAll(files)
  }

  method RotateBackups(dir: BackupDir, csvExists: bool, today: Date)
    requires dir.Valid() && Valid(today)
    modifies dir
    ensures dir.Valid()
    ensures dir.files == AfterRun(old(dir.files), csvExists, BackupName(BACKUP_PREFIX, today))
  {
    var backupFiles := dir.files;
    while |backupFiles| >= RETENTION
      invariant dir.Valid() && dir.files == backupFiles
      invariant |backupFiles| <= |old(dir.files)|
      invariant backupFiles == old(dir.files)[|old(dir.files)| - |backupFiles|..]
      invariant |old(dir.files)| >= RETENTION ==> |backupFiles| >= RETENTION - 1
      invariant |old(dir.files)| < RETENTION ==> backupFiles == old(dir.files)
      decreases |backupFiles|
    {
      var oldest := backupFiles[0];
      backupFiles := backupFiles[1..];
      dir.Remove(oldest);
      assert dir.files == backupFiles by {
        SortedUnique(dir.files, backupFiles);
      }
    }
    assert backupFiles == PruneAll(old(dir.files));
    if csvExists {
      dir.CopyIn(BackupName(BACKUP_PREFIX, today));
    }
  }

  /** The listing after one run per day, each with the CSV present, starting
      from an empty directory; `names` are that day's backup names in order. */
  function DailyRuns(names: seq<string>): (r: seq<string>)
    requires Sorted(names)
    ensures Sorted(r)
  {
    if names == [] then []
    else AfterRun(DailyRuns(names[..|names| - 1]), true, names[|names| - 1])
  }

  /** After any number of daily runs exactly the five most recent backups
      remain (all of them, while there are fewer than five). */
  lemma {:induction false} DailyRunsKeepLatest(names: seq<string>)
    requires Sorted(names)
    ensures |names| >= RETENTION ==> DailyRuns(names) == names[|names| - RETENTION..]
    ensures |names| < RETENTION ==> DailyRuns(names) == names
  {
    if names != [] {
      var init := names[..|names| - 1];
      assert Sorted(init);
      DailyRunsKeepLatest(init);
      RunOnLatest(names, init, DailyRuns(init));
    }
  }

  /** The run on the last day, applied to what the earlier days left (their
      five latest names, or all of them), leaves the five latest names. */
  lemma RunOnLatest(names: seq<string>, init: seq<string>, prev: seq<string>)
    requires Sorted(names) && names != [] && init == names[..|names| - 1]
    requires |init| >= RETENTION ==> prev == init[|init| - RETENTION..]
    requires |init| < RETENTION ==> prev == init
    ensures Sorted(prev)
    ensures AfterRun(prev, true, names[|names| - 1])
         == if |names| >= RETENTION then names[|names| - RETENTION..] else names
  {
    var n := |names|;
    if n - 1 >= RETENTION {
      assert prev == names[n - 1 - RETENTION..n - 1];
      SortedSlice(names, n - 1 - RETENTION, n - 1);
      assert PruneAll(prev) == names[n - RETENTION..n - 1];
      AppendNewest(names, RETENTION - 1);
    } else {
      assert prev == names[..n - 1];
      SortedSlice(names, 0, n - 1);
      AppendNewest(names, n - 1);
      if n < RETENTION {
        assert names[0..] == names;
      }
    }
  }

  lemma SortedSlice(s: seq<string>, lo: nat, hi: nat)
    requires Sorted(s) && lo <= hi <= |s|
    ensures Sorted(s[lo..hi])
  {
    forall i, j | 0 <= i < j < hi - lo ensures LexLess(s[lo..hi][i], s[lo..hi][j]) {
      assert s[lo..hi][i] == s[lo + i] && s[lo..hi][j] == s[lo + j];
    }
  }

  /** Adding the newest name after the `m` names before it gives the last
      `m + 1` names. */
  lemma AppendNewest(names: seq<string>, m: nat)
    requires Sorted(names) && m < |names|
    ensures Insert(names[|names| - 1 - m..|names| - 1], names[|names| - 1])
         == names[|names| - 1 - m..]
  {
    var n := |names|;
    var kept := names[n - 1 - m..n - 1];
    SortedSlice(names, n - 1 - m, n - 1);
    forall k | 0 <= k < m ensures LexLess(kept[k], names[n - 1]) {
      assert kept[k] == names[n - 1 - m + k];
    }
    InsertLast(kept, names[n - 1]);
    assert kept + [names[n - 1]] == names[n - 1 - m..];
  }

  // ---------------------------------------------------------------------------
  // get_yearly_avg_celsius

  /** One entry of the geocoding reply's `results` list. */
  datatype GeoHit = GeoHit(latitude: Option<real>, longitude: Option<real>)
  /** The geocoding reply; `results` is `None` when the key is absent. */
  datatype GeoReply = GeoReply(results: Option<seq<GeoHit>>)
  /** The archive reply's `daily` object and its `temperature_2m_mean` series. */
  datatype DailySeries = DailySeries(temperature2mMean: Option<seq<Option<real>>>)
  datatype ArchiveReply = ArchiveReply(daily: Option<DailySeries>)

  /** Geocoding by city and country; `None` when the request or decoding raised. */
  type Geocoder = (string, string) -> Option<GeoReply>
  /** The archive by latitude, longitude, start and end date; `None` on failure. */
  type Archive = (real, real, string, string) -> Option<ArchiveReply>

  /** `[t for t in temps if t is not None]`. */
  function NonNull(temps: seq<Option<real>>): (r: seq<real>)
    ensures |r| <= |temps|
    ensures forall k :: 0 <= k < |r| ==> Some(r[k]) in temps
    ensures r == [] <==> forall i :: 0 <= i < |temps| ==> temps[i].None?
  {
    if temps == [] then []
    else (if temps[0].Some? then [temps[0].value] else []) + NonNull(temps[1..])
  }

  lemma {:induction false} NonNullConcat(a: seq<Option<real>>, b: seq<Option<real>>)
    ensures NonNull(a + b) == NonNull(a) + NonNull(b)
  {
    if a == [] {
      assert a + b == b;
    } else {
      assert (a + b)[0] == a[0] && (a + b)[1..] == a[1..] + b;
      NonNullConcat(a[1..], b);
    }
  }

  /** The rounded mean of the non-null samples; `None` when every sample is
      null (or there are none). */
  function YearlyMean(temps: seq<Option<real>>): (r: Option<int>)
    ensures r.None? <==> forall i :: 0 <= i < |temps| ==> temps[i].None?
    ensures r.Some? ==> NonNull(temps) != [] && r.value == RoundHalfEven(Mean(NonNull(temps)))
  {
    var valid := NonNull(temps);
    if valid == [] then None
    else Some(RoundHalfEven(Mean(valid)))
  }

  /** A null sample anywhere in the series changes nothing. */
  lemma YearlyMeanIgnoresNull(a: seq<Option<real>>, b: seq<Option<real>>)
    ensures YearlyMean(a + [None] + b) == YearlyMean(a + b)
  {
    assert a + [None] + b == a + ([None] + b);
    NonNullConcat(a, [None] + b);
    NonNullConcat(a, b);
    assert ([None] + b)[1..] == b;
    assert NonNull([None] + b) == NonNull(b);
  }

  /** When every non-null sample lies between two whole degrees, so does the
      yearly mean. */
  lemma YearlyMeanBounds(temps: seq<Option<real>>, lo: int, hi: int)
    requires forall i :: 0 <= i < |temps| && temps[i].Some? ==> lo as real <= temps[i].value <= hi as real
    ensures YearlyMean(temps).Some? ==> lo <= YearlyMean(temps).value <= hi
  {
    var valid := NonNull(temps);
    if valid != [] {
      forall k | 0 <= k < |valid| ensures lo as real <= valid[k] <= hi as real {
        assert valid[k] in valid;
        var i :| 0 <= i < |temps| && temps[i] == Some(valid[k]);
      }
      MeanBounds(valid, lo as real, hi as real);
      RoundWithinBounds(Mean(valid), lo, hi);
    }
  }

  /** A series `[10, null, 12, 14]` averages to 12 degrees. */
  lemma YearlyMeanExample()
    ensures YearlyMean([Some(10.0), None, Some(12.0), Some(14.0)]) == Some(12)
  {
    var temps := [Some(10.0), None, Some(12.0), Some(14.0)];
    assert NonNull(temps) == [10.0, 12.0, 14.0] by {
      assert temps[1..] == [None, Some(12.0), Some(14.0)];
      assert temps[2..] == [Some(12.0), Some(14.0)];
      assert temps[3..] == [Some(14.0)];
    }
    assert Sum([10.0, 12.0, 14.0]) == 36.0 by {
      assert [10.0, 12.0, 14.0][1..] == [12.0, 14.0];
      assert [12.0, 14.0][1..] == [14.0];
    }
    RoundHalfEvenUnique(12.0, 12);
  }

  /** The daily series the services deliver for a city: the geocoder's first
      hit gives the coordinates, the archive is asked for `dates` there. */
  function DailyTemperatures(city: string, country: string, dates: (string, string),
                             geocode: Geocoder, archive: Archive): (r: Option<seq<Option<real>>>)
    ensures geocode(city, country).None? ==> r.None?
    ensures geocode(city, country).Some? && geocode(city, country).value.results.None? ==> r.None?
    ensures r.Some? ==>
      var hits := geocode(city, country).value.results.value;
      |hits| > 0 && hits[0].latitude.Some? && hits[0].longitude.Some?
      && archive(hits[0].latitude.value, hits[0].longitude.value, dates.0, dates.1)
         == Some(ArchiveReply(Some(DailySeries(r))))
    ensures var geo := geocode(city, country);
      geo.Some? && geo.value.results.Some? && |geo.value.results.value| > 0
      && geo.value.results.value[0].latitude.Some? && geo.value.results.value[0].longitude.Some?
      ==>
      var hit := geo.value.results.value[0];
      var reply := archive(hit.latitude.value, hit.longitude.value, dates.0, dates.1);
      reply.Some? && reply.value.daily.Some? ==> r == reply.value.daily.value.temperature2mMean
  {
    match geocode(city, country)
    case None => None
    case Some(geo) =>
      match geo.results
      case None => None
      case Some(hits) =>
        if |hits| == 0 || hits[0].latitude.None? || hits[0].longitude.None? then None
        else
          match archive(hits[0].latitude.value, hits[0].longitude.value, dates.0, dates.1)
          case None => None
          case Some(reply) =>
            match reply.daily
            case None => None
            case Some(daily) => daily.temperature2mMean
  }

  /** `get_yearly_avg_celsius(city, country)`: `None` when any service step
      fails or finds nothing, or when the series has no non-null sample. */
  function YearlyAvgCelsius(city: string, country: string, dates: (string, string),
                            geocode: Geocoder, archive: Archive): (r: Option<int>)
    ensures geocode(city, country).None? ==> r.None?
    ensures r.Some? <==>
      DailyTemperatures(city, country, dates, geocode, archive).Some?
      && exists i :: 0 <= i < |DailyTemperatures(city, country, dates, geocode, archive).value|
           && DailyTemperatures(city, country, dates, geocode, archive).value[i].Some?
    ensures r.Some? ==> r == YearlyMean(DailyTemperatures(city, country, dates, geocode, archive).value)
  {
    match DailyTemperatures(city, country, dates, geocode, archive)
    case None => None
    case Some(temps) => YearlyMean(temps)
  }

  // ---------------------------------------------------------------------------
  // The per-row loop: `df.at[index, 'Average_Temp_C'] = new_val` when not None.

  /** A row after the update with `v`: the temperature is replaced exactly when
      there is a new value, and no other column changes. */
  function WithTemperature(row: CityRecord, v: Option<int>): (r: CityRecord)
    ensures r.averageTempC == (if v.Some? then v else row.averageTempC)
    ensures r.(averageTempC := row.averageTempC) == row
  {
    if v.Some? then row.(averageTempC := v) else row
  }

  /** Visits every row once, in order (`visited` is the sequence of service
      queries), and replaces its temperature when the services produced one. */
  method UpdateTemperatures(table: array<CityRecord>, dates: (string, string),
                            geocode: Geocoder, archive: Archive)
    returns (visited: seq<(string, string)>)
    modifies table
    ensures |visited| == table.Length
    ensures forall i :: 0 <= i < table.Length ==>
      visited[i] == (old(table[i]).city, old(table[i]).country)
    ensures forall i :: 0 <= i < table.Length ==>
      table[i] == WithTemperature(old(table[i]),
                    YearlyAvgCelsius(old(table[i]).city, old(table[i]).country, dates, geocode, archive))
  {
    visited := [];
    var index := 0;
    while index < table.Length
      invariant 0 <= index <= table.Length
      invariant |visited| == index
      invariant forall i :: 0 <= i < index ==>
        visited[i] == (old(table[i]).city, old(table[i]).country)
      invariant forall i :: 0 <= i < index ==>
        table[i] == WithTemperature(old(table[i]),
                      YearlyAvgCelsius(old(table[i]).city, old(table[i]).country, dates, geocode, archive))
      invariant forall i :: index <= i < table.Length ==> table[i] == old(table[i])
    {
      var row := table[index];
      visited := visited + [(row.city, row.country)];
      var newVal := YearlyAvgCelsius(row.city, row.country, dates, geocode, archive);
      if newVal.Some? {
        table[index] := row.(averageTempC := newVal);
      }
      index := index + 1;
    }
  }

  /** The script from the backup step to the local save: rotation always runs;
      the table is updated only when the CSV exists. */
  method YearlyUpdate(dir: BackupDir, table: array<CityRecord>, csvExists: bool, today: Date,
                      geocode: Geocoder, archive: Archive)
    requires dir.Valid() && Valid(today)
    modifies dir, table
    ensures dir.Valid()
    ensures dir.files == AfterRun(old(dir.files), csvExists, BackupName(BACKUP_PREFIX, today))
    ensures !csvExists ==> table[..] == old(table[..])
    ensures csvExists ==> forall i :: 0 <= i < table.Length ==>
      table[i] == WithTemperature(old(table[i]),
                    YearlyAvgCelsius(old(table[i]).city, old(table[i]).country,
                                     ArchiveDates(today), geocode, archive))
  {
    RotateBackups(dir, csvExists, today);
    if csvExists {
      ghost var rotated := dir.files;
      var dates := ArchiveDates(today);
      var _ := UpdateTemperatures(table, dates, geocode, archive);
      assert dir.files == rotated;
    }
  }
}
