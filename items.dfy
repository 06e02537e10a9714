/** The scraped record: one municipality, every field a display string as it
    appears on the page ("56 km", "35 068 hab."). */
module Items {

  /** The eight fields, in declaration order. Every field is always present:
      the spider fills all of them, with "" where the page has no value. */
  datatype City = City(
    name: string,
    state: string,
    distanceToTheCapital: string,
    totalPopulation: string,
    totalArea: string,
    density: string,
    hdi: string,
    url: string)
}
