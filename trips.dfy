/** The records the scraper builds and the result rows of the page it reads them from. */
module Trips {
  import opened Wrappers

  // The train types of class TrainType.
  const AVE := "AVE"
  const AVANT := "AVANT"
  const MD := "MD"
  const ALL := "ALL"

  /** What a trip without a train type counts as (`trip_info.get('tipo', 'N/A')`). */
  const NA := "N/A"

  /** One result row (an element of class `selectedTren`), reduced to what the extractor
      reads from it; `None` marks an element that is not there. */
  datatype Row = Row(
    alt: Option<string>,       // alt text of the `img.img-fluid` (None: no image)
    headings: seq<string>,     // texts of the row's `h5` elements, in page order
    duration: Option<string>,  // text of `span.text-number`
    price: Option<string>,     // text of `span.precio-final`
    full: bool)                // a `Tren Completo` marker is present

  /** The `trip_info` dict of one trip; `None` where the key was never set. */
  datatype Trip = Trip(
    tipo: Option<string>,
    salida: Option<string>,
    llegada: Option<string>,
    duracion: Option<string>,
    precio: Option<string>,
    completo: bool)

  /** The train type the filters see: `trip_info.get('tipo', 'N/A')`. */
  function TypeOf(t: Trip): string
  {
    t.tipo.GetOr(NA)
  }

  /** The `(filter_type, time_value)` pair. The command line only makes `'before'` and
      `'after'` filters, but the scraper accepts any kind from a caller. */
  datatype TimeFilter = TimeFilter(kind: string, value: string)
}
