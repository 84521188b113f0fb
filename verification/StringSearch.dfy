/** Looking a string up in a list, as the watch does with the names it must leave out. */
module StringSearch {

  method FindString(list: seq<string>, str: string) returns (index: int)
    ensures -1 <= index < |list|
    ensures index == -1 <==> str !in list
    ensures index != -1 ==> list[index] == str && str !in list[..index]
  {
    for i := 0 to |list|
      invariant str !in list[..i]
    {
      if str == list[i] {
        return i;
      }
    }
    return -1;
  }

  method StringIn(str: string, list: seq<string>) returns (found: bool)
    ensures found <==> str in list
  {
    var index := FindString(list, str);
    found := index > -1;
  }
}
