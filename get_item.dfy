/**
 * The `get_item` template filter: a dictionary lookup that tries the key as
 * given, then the key converted with `int(...)`, then the key converted with
 * `str(...)`, and otherwise yields `None`.
 */
module GetItem {
  import opened Wrappers
  import Text

  /** A dictionary key as templates pass it: an integer, a string or `None`. */
  datatype Key = IntKey(i: int) | StrKey(s: string) | NoneKey

  /** `int(key)`; `None` stands for the `TypeError` or `ValueError` that `int` raises. */
  function ToInt(k: Key): Option<int> {
    match k
    case IntKey(i) => Some(i)
    case StrKey(s) => Text.ParseInt(s)
    case NoneKey => None
  }

  /** `str(key)`. */
  function ToStr(k: Key): string {
    match k
    case IntKey(i) => Text.IntToString(i)
    case StrKey(s) => s
    case NoneKey => "None"
  }

  /**
   * `get_item(dictionary, key)`; a `None` dictionary is `None` here, and the
   * result `None` is the filter's `None`.
   */
  function Get<V>(dictionary: Option<map<Key, V>>, key: Key): (r: Option<V>)
    ensures dictionary.None? || dictionary.value == map[] ==> r == None
    ensures dictionary.Some? && key in dictionary.value ==> r == Some(dictionary.value[key])
    ensures r.Some? <==>
              dictionary.Some? &&
              (key in dictionary.value ||
               (ToInt(key).Some? && IntKey(ToInt(key).value) in dictionary.value) ||
               StrKey(ToStr(key)) in dictionary.value)
  {
    match dictionary
    case None => None
    case Some(d) =>
      if d == map[] then None
      else if key in d then Some(d[key])
      else
        match ToInt(key)
        case Some(ikey) =>
          if IntKey(ikey) in d then Some(d[IntKey(ikey)])
          else if StrKey(ToStr(key)) in d then Some(d[StrKey(ToStr(key))]) else None
        case None =>
          if StrKey(ToStr(key)) in d then Some(d[StrKey(ToStr(key))]) else None
  }

  /** An absent string key such as "3" falls back to the integer key 3. */
  lemma StringKeyFallsBackToInt<V>(d: map<Key, V>, s: string, n: int)
    requires StrKey(s) !in d && Text.ParseInt(s) == Some(n) && IntKey(n) in d
    ensures Get(Some(d), StrKey(s)) == Some(d[IntKey(n)])
  {
  }

  /** An absent integer key such as 3 falls back to the string key "3". */
  lemma IntKeyFallsBackToString<V>(d: map<Key, V>, n: int)
    requires IntKey(n) !in d
    ensures Get(Some(d), IntKey(n)) ==
              if StrKey(Text.IntToString(n)) in d then Some(d[StrKey(Text.IntToString(n))]) else None
  {
  }

  /** A non-numeric key never raises: it ends with the lookup of its own string, so an absent one yields `None`. */
  lemma NonNumericKeyIsMissing<V>(d: map<Key, V>, s: string, k: nat)
    requires k < |s| && !Text.IsSpace(s[k]) && !Text.IsAsciiDigit(s[k]) && s[k] != '-' && s[k] != '+'
    requires StrKey(s) !in d
    ensures Get(Some(d), StrKey(s)) == None
  {
    Text.ParseIntRejectsNonNumeric(s, k);
  }

  /**
   * The template's typical use: a value stored under the integer n is found
   * through the string the page renders for n.
   */
  lemma LookupOfDigitString<V>(n: int, v: V)
    ensures Get(Some(map[IntKey(n) := v]), StrKey(Text.IntToString(n))) == Some(v)
  {
    Text.ParseIntToString(n);
  }
}
