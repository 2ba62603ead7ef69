/** The focus mode the camera session asks for when it starts: the first mode
    of a fixed preference order that the camera reports as supported. */
module FocusMode {
  import opened Wrappers

  /** The camera parameter values of the four modes the session tries. */
  const Auto: string := "auto"
  const ContinuousPicture: string := "continuous-picture"
  const ContinuousVideo: string := "continuous-video"
  const Edof: string := "edof"

  /** The order in which the session tries them. */
  const Preference: seq<string> := [Auto, ContinuousPicture, ContinuousVideo, Edof]

  /** The session's `if`/`else` chain; None means focus is left as it is. */
  function ChooseFocusMode(supported: seq<string>): (r: Option<string>)
    ensures r.Some? ==> r.value in supported && r.value in Preference
    ensures r.None? <==> forall i :: 0 <= i < |Preference| ==> Preference[i] !in supported
    ensures forall i, j :: 0 <= i < j < |Preference| && r == Some(Preference[j]) ==> Preference[i] !in supported
  {
    if Auto in supported then Some(Auto)
    else if ContinuousPicture in supported then Some(ContinuousPicture)
    else if ContinuousVideo in supported then Some(ContinuousVideo)
    else if Edof in supported then Some(Edof)
    else None
  }

  /** Reference definition: the first element of `prefs` found in `supported`. */
  function FirstSupported(prefs: seq<string>, supported: seq<string>): (r: Option<string>)
    ensures r.Some? ==> r.value in prefs && r.value in supported
    ensures r.None? ==> forall i :: 0 <= i < |prefs| ==> prefs[i] !in supported
  {
    if prefs == [] then None
    else if prefs[0] in supported then Some(prefs[0])
    else FirstSupported(prefs[1..], supported)
  }

  /** `m` occurs in `prefs` at a position before which nothing is supported. */
  ghost predicate FirstOfPreference(prefs: seq<string>, supported: seq<string>, m: string) {
    exists k :: 0 <= k < |prefs| && prefs[k] == m && NoneSupported(prefs[..k], supported)
  }

  ghost predicate NoneSupported(prefs: seq<string>, supported: seq<string>) {
    forall i :: 0 <= i < |prefs| ==> prefs[i] !in supported
  }

  /** What FirstSupported finds is preceded only by unsupported preferences. */
  lemma {:induction false} FirstSupportedIsFirst(prefs: seq<string>, supported: seq<string>)
    ensures FirstSupported(prefs, supported).Some? ==>
              FirstOfPreference(prefs, supported, FirstSupported(prefs, supported).value)
  {
    var r := FirstSupported(prefs, supported);
    if prefs != [] && r.Some? {
      if prefs[0] in supported {
        assert prefs[..0] == [];
      } else {
        FirstSupportedIsFirst(prefs[1..], supported);
        var k :| 0 <= k < |prefs[1..]| && prefs[1..][k] == r.value
                 && NoneSupported(prefs[1..][..k], supported);
        assert prefs[..k + 1] == [prefs[0]] + prefs[1..][..k];
        assert prefs[k + 1] == r.value;
      }
    }
  }

  /** The chain in the source is exactly "first supported in preference order". */
  lemma ChooseFocusModeIsFirstSupported(supported: seq<string>)
    ensures ChooseFocusMode(supported) == FirstSupported(Preference, supported)
  {
    var p := Preference;
    assert p[1..] == [ContinuousPicture, ContinuousVideo, Edof];
    assert p[1..][1..] == [ContinuousVideo, Edof];
    assert p[1..][1..][1..] == [Edof];
    assert p[1..][1..][1..][1..] == [];
    assert FirstSupported(p[1..][1..][1..], supported)
      == if Edof in supported then Some(Edof) else None;
    assert FirstSupported(p[1..][1..], supported)
      == if ContinuousVideo in supported then Some(ContinuousVideo)
         else FirstSupported(p[1..][1..][1..], supported);
    assert FirstSupported(p[1..], supported)
      == if ContinuousPicture in supported then Some(ContinuousPicture)
         else FirstSupported(p[1..][1..], supported);
  }
}
