/**
 * Choosing the file to play: the melody map is keyed by the decimal text of
 * the requested id, and the entry under "0" is the fallback.
 */
module MelodyMap {
  import opened Wrappers

  /** The key of the fallback melody. */
  const DefaultKey: string := "0"

  predicate IsDigit(ch: char)
  {
    '0' <= ch <= '9'
  }

  predicate AllDigits(s: string)
  {
    forall i | 0 <= i < |s| :: IsDigit(s[i])
  }

  function DigitChar(d: nat): (ch: char)
    requires d < 10
    ensures IsDigit(ch)
  {
    ('0' as int + d) as char
  }

  function DigitValue(ch: char): nat
    requires IsDigit(ch)
  {
    ch as int - '0' as int
  }

  /** The decimal text of a natural number: digits only, no leading zero. */
  function Digits(n: nat): (s: string)
    ensures |s| >= 1 && AllDigits(s)
    ensures (s[0] == '0') == (n == 0)
  {
    if n < 10 then [DigitChar(n)] else Digits(n / 10) + [DigitChar(n % 10)]
  }

  /** Python's `str` of an integer: a minus sign for negative ids, then
      the decimal digits of the magnitude. */
  function Str(id: int): (s: string)
    ensures |s| >= 1
    ensures id >= 0 ==> AllDigits(s)
    ensures id < 0 ==> |s| >= 2 && s[0] == '-' && AllDigits(s[1..])
    ensures id >= 0 ==> (s[0] == '0' <==> id == 0)
    ensures id < 0 ==> s[1] != '0'
  {
    if id < 0 then "-" + Digits(-id) else Digits(id)
  }

  /** The value of a run of decimal digits. */
  function ParseDigits(s: string): nat
    requires AllDigits(s)
  {
    if s == [] then 0 else 10 * ParseDigits(s[..|s| - 1]) + DigitValue(s[|s| - 1])
  }

  /** Reading an optionally signed decimal integer back. */
  function ParseInt(s: string): Option<int>
  {
    if |s| >= 2 && s[0] == '-' && AllDigits(s[1..]) then Some(-(ParseDigits(s[1..]) as int))
    else if |s| >= 1 && AllDigits(s) then Some(ParseDigits(s))
    else None
  }

  lemma {:induction false} ParseDigitsOfDigits(n: nat)
    ensures ParseDigits(Digits(n)) == n
  {
    if n >= 10 {
      var s := Digits(n);
      assert s[..|s| - 1] == Digits(n / 10);
      ParseDigitsOfDigits(n / 10);
    } else {
      assert Digits(n)[..0] == [];
    }
  }

  /** `str` of an id reads back as the same id. */
  lemma StrRoundTrip(id: int)
    ensures ParseInt(Str(id)) == Some(id)
  {
    var s := Str(id);
    if id < 0 {
      assert s[1..] == Digits(-id);
      ParseDigitsOfDigits(-id);
    } else {
      ParseDigitsOfDigits(id);
    }
  }

  /** Different ids never share a key of the melody map. */
  lemma StrInjective(a: int, b: int)
    requires a != b
    ensures Str(a) != Str(b)
  {
    StrRoundTrip(a);
    StrRoundTrip(b);
  }

  /**
   * The file chosen for a start request. Python evaluates the default
   * argument `melody_map["0"]` before the lookup, so the choice fails with a
   * KeyError (None here) whenever "0" is not a key, whatever the id.
   */
  function ChooseFile(melodyMap: map<string, string>, id: int): (r: Option<string>)
    ensures r.None? <==> DefaultKey !in melodyMap
    ensures r.Some? ==> r.value in melodyMap.Values
  {
    if DefaultKey !in melodyMap then None
    else if Str(id) in melodyMap then Some(melodyMap[Str(id)])
    else Some(melodyMap[DefaultKey])
  }

  /** An id that is a key of the map gets its own entry. */
  lemma MappedIdOwnEntry(melodyMap: map<string, string>, id: int)
    requires DefaultKey in melodyMap && Str(id) in melodyMap
    ensures ChooseFile(melodyMap, id) == Some(melodyMap[Str(id)])
  {
  }

  /** An id that is not a key plays exactly what id 0 plays. */
  lemma UnmappedFallsBack(melodyMap: map<string, string>, id: int)
    requires DefaultKey in melodyMap && Str(id) !in melodyMap
    ensures ChooseFile(melodyMap, id) == ChooseFile(melodyMap, 0) == Some(melodyMap[DefaultKey])
  {
    assert Str(0) == DefaultKey;
  }

  /** Without a "0" entry every request fails, the mapped ones included. */
  lemma MissingDefaultFails(melodyMap: map<string, string>, id: int)
    requires DefaultKey !in melodyMap && Str(id) in melodyMap
    ensures ChooseFile(melodyMap, id) == None
  {
  }
}
