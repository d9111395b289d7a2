/**
 * The `cities` state of the `App` screen in App.js. The screen keeps the list
 * in one state variable and replaces it wholesale through `setCities`; here
 * that variable is the field `cities` of class `App`, and each handler that
 * calls `setCities` is a method that reassigns it.
 */
module Registry {
  import opened CityList

  /**
   * The outcome of reading the key '@cities' from device storage and parsing
   * it: a stored list, no value (`null`), or an exception from the read or the
   * parse, which the handler catches and only logs.
   */
  datatype StoredValue =
    | Stored(list: seq<City>)
    | Null
    | ReadError

  class App {
    /** The list the screen renders, one card per entry, in order. */
    var cities: seq<City>

    /** The screen mounts with an empty list. */
    constructor ()
      ensures cities == []
    {
      cities := [];
    }

    /** The dialog's "Add" button: append `{id: cities.length, name: cityName}`. */
    method AddCity(cityName: string)
      modifies this
      ensures cities == CityList.AddCity(old(cities), cityName)
      ensures |cities| == |old(cities)| + 1 && cities[..|old(cities)|] == old(cities)
    {
      cities := CityList.AddCity(cities, cityName);
    }

    /** A card's "x" button: keep only the entries whose id differs from `id`. */
    method DeleteCity(id: int)
      modifies this
      ensures cities == CityList.DeleteCity(old(cities), id)
      ensures forall c :: c in cities <==> c in old(cities) && c.id != id
    {
      cities := CityList.DeleteCity(cities, id);
    }

    /**
     * `getData`: replace the list by the stored one when the read produced a
     * value; on `null` or a caught error the list stays as it was.
     */
    method GetData(value: StoredValue)
      modifies this
      ensures value.Stored? ==> cities == value.list
      ensures !value.Stored? ==> cities == old(cities)
    {
      match value {
        case Stored(list) =>
          cities := list;
        case Null =>
        case ReadError =>
      }
    }
  }
}
