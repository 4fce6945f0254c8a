/** The city table `data/cities.csv` as the scripts and the dashboard load it:
    an ordered sequence of rows. A value pandas reads as NaN is `None`. */
module Dataset {
  import opened Wrappers

  /** One row. `latitude` and `longitude` stand for the two columns that older
      versions of the file carry and that the population script drops. */
  datatype CityRecord = CityRecord(
    city: string,
    country: string,
    population: Option<int>,
    areaKm2: Option<real>,
    populationDensity: Option<real>,
    averageTempC: Option<int>,
    latitude: Option<real>,
    longitude: Option<real>)
}
