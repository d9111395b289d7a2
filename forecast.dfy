/**
 * The request that a `WeatherForecast` card of App.js issues for its city:
 * one string built by `+` from a fixed endpoint, the city name as given, the
 * fixed format and unit parameters, and the API key read from the process
 * environment.
 */
module Forecast {
  import opened Wrappers

  /** The endpoint up to and including the name of the city parameter. */
  const BaseUrl: string := "https://api.openweathermap.org/data/2.5/weather?q="

  /** What follows the city: response mode, unit system and the key's parameter name. */
  const QueryTail: string := "&mode=json&units=metric" + "&appid="

  /**
   * The text JavaScript's `+` writes for the key: the variable's value, or
   * "undefined" when it is not set.
   */
  function KeyText(apiKey: Option<string>): string
  {
    match apiKey
    case Some(k) => k
    case None => "undefined"
  }

  /**
   * The request string. The city sits verbatim between the endpoint and the
   * fixed parameters: nothing is percent-encoded or checked.
   */
  function RequestUrl(city: string, apiKey: Option<string>): (r: string)
    ensures |r| == |BaseUrl| + |city| + |QueryTail| + |KeyText(apiKey)|
    ensures r[..|BaseUrl|] == BaseUrl
    ensures r[|BaseUrl|..|BaseUrl| + |city|] == city
    ensures r[|BaseUrl| + |city|..|r| - |KeyText(apiKey)|] == QueryTail
    ensures r[|r| - |KeyText(apiKey)|..] == KeyText(apiKey)
  {
    BaseUrl + city + QueryTail + KeyText(apiKey)
  }

  /**
   * The city a request string asks for, given the key text it ends with: the
   * text between the endpoint and the fixed parameters, if the string has that
   * shape.
   */
  function CityOf(url: string, key: string): Option<string>
  {
    var n, m := |BaseUrl|, |QueryTail| + |key|;
    if n + m <= |url| && url[..n] == BaseUrl && url[|url| - m..] == QueryTail + key
    then Some(url[n..|url| - m])
    else None
  }

  /** The city is recovered from the request built for it. */
  lemma CityOfRequestUrl(city: string, apiKey: Option<string>)
    ensures CityOf(RequestUrl(city, apiKey), KeyText(apiKey)) == Some(city)
  {
    var r, key := RequestUrl(city, apiKey), KeyText(apiKey);
    var m := |QueryTail| + |key|;
    assert r[|r| - m..] == r[|BaseUrl| + |city|..|r| - |key|] + r[|r| - |key|..];
  }

  /**
   * Because the city is not encoded, a city that itself contains the fixed
   * parameters yields the same request as a shorter city with a longer key:
   * the request string does not determine which city was asked for.
   */
  lemma UnescapedCityAmbiguous(city: string, k1: string, k2: string)
    ensures city + QueryTail + k1 != city
    ensures RequestUrl(city + QueryTail + k1, Some(k2)) == RequestUrl(city, Some(k1 + QueryTail + k2))
  {
    assert |city + QueryTail + k1| > |city|;
  }
}
