/**
 * The HTTP Header language negotiation method (plugin HttpHeader): picks the
 * langcode of the first stored mapping whose header the request carries with
 * the mapped value.
 */
module LanguageNegotiation {
  import opened Wrappers
  import opened PhpStrings
  import opened MappingTable

  /** Request headers, one value per name, names compared exactly. */
  type Headers = map<string, string>

  /** The request carries the entry's header with the entry's value. */
  predicate Matches(e: Entry, headers: Headers)
    requires ':' in e.key
  {
    var (name, value) := SplitKey(e.key);
    name in headers && headers[name] == value
  }

  /** The langcode of the first matching entry in stored order, if any. */
  function FirstMatch(t: Table, headers: Headers): Option<string>
    requires KeyedTable(t)
  {
    if t == [] then None
    else if Matches(t[0], headers) then Some(t[0].langcode)
    else FirstMatch(t[1..], headers)
  }

  /** No decision exactly when no entry matches. */
  lemma {:induction false} NoMatchNoDecision(t: Table, headers: Headers)
    requires KeyedTable(t)
    ensures FirstMatch(t, headers).None? <==> forall i :: 0 <= i < |t| ==> !Matches(t[i], headers)
  {
    if t != [] {
      NoMatchNoDecision(t[1..], headers);
      assert forall i :: 0 < i < |t| ==> t[1..][i - 1] == t[i];
    }
  }

  /** First match wins: a matching entry with no matching entry before it decides. */
  lemma {:induction false} FirstMatchWins(t: Table, headers: Headers, i: int)
    requires KeyedTable(t) && 0 <= i < |t| && Matches(t[i], headers)
    requires forall j :: 0 <= j < i ==> !Matches(t[j], headers)
    ensures FirstMatch(t, headers) == Some(t[i].langcode)
  {
    if i > 0 {
      FirstMatchWins(t[1..], headers, i - 1);
    }
  }

  /** A decision is always the langcode of a matching entry. */
  lemma {:induction false} DecisionFromMatchingEntry(t: Table, headers: Headers) returns (i: int)
    requires KeyedTable(t) && FirstMatch(t, headers).Some?
    ensures 0 <= i < |t| && Matches(t[i], headers)
    ensures FirstMatch(t, headers) == Some(t[i].langcode)
    ensures forall j :: 0 <= j < i ==> !Matches(t[j], headers)
  {
    if Matches(t[0], headers) {
      i := 0;
    } else {
      var j := DecisionFromMatchingEntry(t[1..], headers);
      i := j + 1;
    }
  }

  /** An entry whose header name the request lacks can be removed without changing the decision. */
  lemma {:induction false} AbsentHeaderIgnored(t: Table, headers: Headers, p: int)
    requires KeyedTable(t) && 0 <= p < |t|
    requires SplitKey(t[p].key).0 !in headers
    ensures KeyedTable(t[..p] + t[p + 1..])
    ensures FirstMatch(t, headers) == FirstMatch(t[..p] + t[p + 1..], headers)
  {
    var u := t[..p] + t[p + 1..];
    forall i | 0 <= i < |u| ensures ':' in u[i].key {
      if i < p { assert u[i] == t[i]; } else { assert u[i] == t[i + 1]; }
    }
    if p == 0 {
      assert u == t[1..];
    } else {
      AbsentHeaderIgnored(t[1..], headers, p - 1);
      assert u[0] == t[0];
      assert t[1..][..p - 1] + t[1..][p..] == u[1..];
    }
  }

  /**
   * On a table saved sorted by key, the matching entry with the least key
   * decides.
   */
  lemma SortedLeastKeyWins(t: Table, headers: Headers, i: int)
    requires KeyedTable(t) && StrictlySorted(t)
    requires 0 <= i < |t| && Matches(t[i], headers)
    requires forall j :: 0 <= j < |t| && Matches(t[j], headers) ==> !Less(t[j].key, t[i].key)
    ensures FirstMatch(t, headers) == Some(t[i].langcode)
  {
    FirstMatchWins(t, headers, i);
  }

  /** The page_cache_kill_switch service, reduced to the number of trigger() calls. */
  class KillSwitch {
    ghost var triggers: nat

    constructor ()
      ensures triggers == 0
    {
      triggers := 0;
    }

    method Trigger()
      modifies this
      ensures triggers == old(triggers) + 1
    {
      triggers := triggers + 1;
    }
  }

  class HttpHeader {
    /** Whether the plugin was given a language manager. */
    var hasLanguageManager: bool
    /** The `map` of config language_header.mappings; None when it is not an array. */
    var mappings: Option<Table>
    var killSwitch: KillSwitch

    constructor (hasLanguageManager: bool, mappings: Option<Table>, killSwitch: KillSwitch)
      ensures this.hasLanguageManager == hasLanguageManager
      ensures this.mappings == mappings && this.killSwitch == killSwitch
    {
      this.hasLanguageManager := hasLanguageManager;
      this.mappings := mappings;
      this.killSwitch := killSwitch;
    }

    /**
     * getLangcode(): scans the stored map in order, skips entries whose
     * header the request lacks, and on the first equal value returns its
     * langcode and fires the kill switch. With no language manager, no
     * request or no stored array it decides nothing.
     */
    method GetLangcode(request: Option<Headers>) returns (langcode: Option<string>)
      requires hasLanguageManager && request.Some? && mappings.Some? ==> KeyedTable(mappings.value)
      modifies killSwitch
      ensures langcode == if hasLanguageManager && request.Some? && mappings.Some?
                          then FirstMatch(mappings.value, request.value) else None
      ensures killSwitch.triggers == old(killSwitch.triggers) + (if langcode.Some? then 1 else 0)
    {
      langcode := None;
      if hasLanguageManager && request.Some? {
        var headers := request.value;
        if mappings.Some? {
          var t := mappings.value;
          var i := 0;
          while i < |t|
            invariant 0 <= i <= |t|
            invariant langcode.None?
            invariant FirstMatch(t, headers) == FirstMatch(t[i..], headers)
            invariant killSwitch.triggers == old(killSwitch.triggers)
          {
            assert t[i..][1..] == t[i + 1..];
            var (name, value) := SplitKey(t[i].key);
            if name !in headers {
              i := i + 1;
              continue;
            }
            if headers[name] == value {
              langcode := Some(t[i].langcode);
              killSwitch.Trigger();
              break;
            }
            i := i + 1;
          }
        }
      }
    }
  }
}
