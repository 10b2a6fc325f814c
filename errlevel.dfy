/**
 * The error-level type's conversions: from a numeric level to its name
 * (get_errlevel_name, a linear search over the slots of errlevel_wordlist)
 * and from a name to its numeric level (errlevel_in, through the generated
 * perfect-hash lookup get_errlevel, which is a parameter here).
 */
module ErrorLevels {
  import opened Wrappers

  /** One slot of errlevel_wordlist: a name (None for an empty slot) and its level. */
  datatype ErrorLevel = ErrorLevel(text: Option<string>, code: int)

  /** The errors the conversions raise with elog(ERROR, ...). */
  datatype LevelError =
    | InvalidLevelName                /* no slot holds the level */
    | EmptyStatusName                 /* the name is the empty string */
    | UnknownLevelName(name: string)  /* the lookup knows no such name */

  /** The last slot index the name search visits. */
  const MAX_HASH_VALUE: int := 21

  /** A slot that names the given level. */
  predicate Matches(el: ErrorLevel, code: int)
  {
    el.text.Some? && el.code == code
  }

  /**
   * The name search from slot i on: the name of the first slot in
   * i..MAX_HASH_VALUE that names `code`, or InvalidLevelName when none does.
   */
  function NameFrom(table: seq<ErrorLevel>, code: int, i: int): (r: Result<string, LevelError>)
    requires MAX_HASH_VALUE < |table| && 0 <= i <= MAX_HASH_VALUE + 1
    ensures r.Success? <==> exists j :: i <= j <= MAX_HASH_VALUE && Matches(table[j], code)
    ensures r.Success? ==>
              exists j :: i <= j <= MAX_HASH_VALUE && Matches(table[j], code) &&
                          table[j].text == Some(r.value) &&
                          forall k :: i <= k < j ==> !Matches(table[k], code)
    ensures r.Failure? ==> r.error == InvalidLevelName
    decreases MAX_HASH_VALUE + 1 - i
  {
    if i > MAX_HASH_VALUE then
      Failure(InvalidLevelName)
    else if Matches(table[i], code) then
      Success(table[i].text.value)
    else
      NameFrom(table, code, i + 1)
  }

  /** get_errlevel_name: scans slots 0..MAX_HASH_VALUE for the first one naming `code`. */
  method GetErrlevelName(table: seq<ErrorLevel>, code: int) returns (r: Result<string, LevelError>)
    requires MAX_HASH_VALUE < |table|
    ensures r == NameFrom(table, code, 0)
  {
    for i := 0 to MAX_HASH_VALUE + 1
      invariant NameFrom(table, code, 0) == NameFrom(table, code, i)
    {
      var el := table[i];
      assert NameFrom(table, code, i) ==
             if Matches(el, code) then Success(el.text.value) else NameFrom(table, code, i + 1);
      if el.text.Some? && el.code == code {
        return Success(el.text.value);
      }
    }
    assert NameFrom(table, code, MAX_HASH_VALUE + 1) == Failure(InvalidLevelName);
    return Failure(InvalidLevelName);
  }

  /**
   * errlevel_in: an empty name is refused, a name the lookup does not know
   * is refused with that name, and otherwise the level of the entry found.
   */
  function ErrlevelIn(name: string, lookup: string -> Option<ErrorLevel>): (r: Result<int, LevelError>)
    ensures r == Failure(EmptyStatusName) <==> |name| == 0
    ensures r.Success? <==> |name| > 0 && lookup(name).Some?
    ensures r.Success? ==> r.value == lookup(name).value.code
    ensures r.Failure? && |name| > 0 ==> r.error == UnknownLevelName(name)
  {
    if |name| == 0 then
      Failure(EmptyStatusName)
    else
      match lookup(name)
      case None => Failure(UnknownLevelName(name))
      case Some(el) => Success(el.code)
  }

  /** The lookup only returns a slot of the table, and one whose name is the name asked for. */
  ghost predicate LookupSound(table: seq<ErrorLevel>, lookup: string -> Option<ErrorLevel>)
    requires MAX_HASH_VALUE < |table|
  {
    forall s :: lookup(s).Some? ==>
      exists j :: 0 <= j <= MAX_HASH_VALUE && table[j] == lookup(s).value && table[j].text == Some(s)
  }

  /** The lookup finds every named slot of the table. */
  ghost predicate LookupComplete(table: seq<ErrorLevel>, lookup: string -> Option<ErrorLevel>)
    requires MAX_HASH_VALUE < |table|
  {
    forall j :: 0 <= j <= MAX_HASH_VALUE && table[j].text.Some? ==> lookup(table[j].text.value).Some?
  }

  /** No two slots hold the same name (the keys of a perfect hash are distinct). */
  ghost predicate UniqueNames(table: seq<ErrorLevel>)
    requires MAX_HASH_VALUE < |table|
  {
    forall i, j :: 0 <= i <= MAX_HASH_VALUE && 0 <= j <= MAX_HASH_VALUE &&
                  table[i].text.Some? && table[i].text == table[j].text
                  ==> i == j
  }

  /** No slot holds the empty name. */
  ghost predicate NamesNonEmpty(table: seq<ErrorLevel>)
    requires MAX_HASH_VALUE < |table|
  {
    forall j :: 0 <= j <= MAX_HASH_VALUE && table[j].text.Some? ==> table[j].text != Some("")
  }

  /** No two named slots share a level. */
  ghost predicate UniqueCodes(table: seq<ErrorLevel>)
    requires MAX_HASH_VALUE < |table|
  {
    forall i, j :: 0 <= i <= MAX_HASH_VALUE && 0 <= j <= MAX_HASH_VALUE &&
                  Matches(table[i], table[j].code) && Matches(table[j], table[i].code)
                  ==> i == j
  }

  /** The slot a successful name search stops at. */
  lemma FirstMatch(table: seq<ErrorLevel>, code: int) returns (j: int)
    requires MAX_HASH_VALUE < |table| && NameFrom(table, code, 0).Success?
    ensures 0 <= j <= MAX_HASH_VALUE && Matches(table[j], code)
    ensures table[j].text == Some(NameFrom(table, code, 0).value)
    ensures forall k :: 0 <= k < j ==> !Matches(table[k], code)
  {
    j :| 0 <= j <= MAX_HASH_VALUE && Matches(table[j], code) &&
         table[j].text == Some(NameFrom(table, code, 0).value) &&
         forall k :: 0 <= k < j ==> !Matches(table[k], code);
  }

  /** The slot a successful lookup returns. */
  lemma LookupSlot(table: seq<ErrorLevel>, lookup: string -> Option<ErrorLevel>, s: string) returns (j: int)
    requires MAX_HASH_VALUE < |table| && LookupSound(table, lookup) && lookup(s).Some?
    ensures 0 <= j <= MAX_HASH_VALUE && table[j] == lookup(s).value && table[j].text == Some(s)
  {
    j :| 0 <= j <= MAX_HASH_VALUE && table[j] == lookup(s).value && table[j].text == Some(s);
  }

  /** Parsing the name printed for a level gives that level back. */
  lemma ParseOfLevelName(table: seq<ErrorLevel>, lookup: string -> Option<ErrorLevel>, code: int)
    requires MAX_HASH_VALUE < |table| && LookupSound(table, lookup) && LookupComplete(table, lookup)
    requires UniqueNames(table) && NamesNonEmpty(table)
    requires NameFrom(table, code, 0).Success?
    ensures ErrlevelIn(NameFrom(table, code, 0).value, lookup) == Success(code)
  {
    var name := NameFrom(table, code, 0).value;
    var j := FirstMatch(table, code);
    assert name != "" && lookup(table[j].text.value).Some?;
    var j' := LookupSlot(table, lookup, name);
    assert j == j';
  }

  /** Every name the lookup accepts has a level the name search finds a name for. */
  lemma ParsedLevelHasName(table: seq<ErrorLevel>, lookup: string -> Option<ErrorLevel>, name: string)
    requires MAX_HASH_VALUE < |table| && LookupSound(table, lookup)
    requires ErrlevelIn(name, lookup).Success?
    ensures NameFrom(table, ErrlevelIn(name, lookup).value, 0).Success?
  {
    var j := LookupSlot(table, lookup, name);
    assert Matches(table[j], ErrlevelIn(name, lookup).value);
  }

  /** With one name per level, printing a parsed level gives the name back. */
  lemma NameOfParsedLevel(table: seq<ErrorLevel>, lookup: string -> Option<ErrorLevel>, name: string)
    requires MAX_HASH_VALUE < |table| && LookupSound(table, lookup) && UniqueCodes(table)
    requires ErrlevelIn(name, lookup).Success?
    ensures NameFrom(table, ErrlevelIn(name, lookup).value, 0) == Success(name)
  {
    var code := ErrlevelIn(name, lookup).value;
    var j := LookupSlot(table, lookup, name);
    assert Matches(table[j], code);
    var i := FirstMatch(table, code);
    assert Matches(table[j], table[i].code);
    assert i == j;
  }
}
