/** Header lookup shared by the probe engine and the fingerprint diff. */
module Headers {
  import opened Wrappers
  import Ascii

  predicate EqIgnoreAsciiCase(a: string, b: string) {
    |a| == |b| && forall i :: 0 <= i < |a| ==> Ascii.Lower(a[i]) == Ascii.Lower(b[i])
  }

  /** The value of the first header whose name matches in any letter case. */
  function Find(headers: seq<(string, string)>, name: string): Option<string> {
    if headers == [] then None
    else if EqIgnoreAsciiCase(headers[0].0, name) then Some(headers[0].1)
    else Find(headers[1..], name)
  }

  /** Lookup finds the first header of that name, whatever the letter case, and fails only if there is none. */
  lemma {:induction false} FindIsFirstMatch(headers: seq<(string, string)>, name: string)
    ensures Find(headers, name).None? <==> forall k :: 0 <= k < |headers| ==> !EqIgnoreAsciiCase(headers[k].0, name)
    ensures Find(headers, name).Some? ==>
              exists k :: 0 <= k < |headers| && EqIgnoreAsciiCase(headers[k].0, name)
                          && headers[k].1 == Find(headers, name).value
                          && forall j :: 0 <= j < k ==> !EqIgnoreAsciiCase(headers[j].0, name)
  {
    hide EqIgnoreAsciiCase;
    if headers != [] && !EqIgnoreAsciiCase(headers[0].0, name) {
      var rest := headers[1..];
      FindIsFirstMatch(rest, name);
      if Find(rest, name).Some? {
        var k :| 0 <= k < |rest| && EqIgnoreAsciiCase(rest[k].0, name) && rest[k].1 == Find(rest, name).value
                 && forall j :: 0 <= j < k ==> !EqIgnoreAsciiCase(rest[j].0, name);
        assert headers[k + 1] == rest[k];
        assert forall j :: 0 < j < k + 1 ==> headers[j] == rest[j - 1];
      } else {
        assert forall j :: 0 < j < |headers| ==> headers[j] == rest[j - 1];
      }
    }
  }

  /** Names match exactly when, letter by letter, they are the same up to case. */
  lemma NamesMatchIff(a: string, b: string)
    ensures EqIgnoreAsciiCase(a, b) <==>
              |a| == |b| && forall i :: 0 <= i < |a| ==>
                              || a[i] == b[i]
                              || ('A' <= a[i] <= 'Z' && b[i] as int == a[i] as int + 32)
                              || ('A' <= b[i] <= 'Z' && a[i] as int == b[i] as int + 32)
  {}
}
