/** `detect_pymol_capabilities` and the refinement options it enables. The host enters
    through `probe`, which says what `cmd.get(name)` does for a setting name. */
module Capabilities {

  import opened Wrappers

  /** What `cmd.get(name)` does: returns (the setting exists), raises `CmdException` (it does
      not), or raises some other exception, which the outer handler catches. */
  datatype Probe = Recognised | Unrecognised | ProbeFails

  /** The contents of `PYMOL_CAPS`. */
  datatype Caps = Caps(supportsSculpting: bool, sculptSettingName: Option<string>)

  /** `PYMOL_CAPS` as the module defines it before detection runs. */
  const InitialCaps: Caps := Caps(false, None)

  const SculptingSetting: string := "sculpting"

  /** The candidate names for the sculpt-cycle setting, tried in this order. */
  const Candidates: seq<string> := ["sculpt_iterations", "wizard_sculpt_cycles"]

  const DefaultRotamer: string := "Wizard Default Rotamer"
  const SculptRotamer: string := "Sculpt Rotamer"

  /** How the candidate loop ends: at a recognised name, after trying every name, or by an
      exception that leaves the loop. */
  datatype Scan = Found(name: string) | NoneFound | Failed

  /** The candidate loop: the first name whose probe does not raise `CmdException` decides. */
  function ScanNames(names: seq<string>, probe: string -> Probe): Scan
  {
    if names == [] then NoneFound
    else
      match probe(names[0])
      case Recognised => Found(names[0])
      case Unrecognised => ScanNames(names[1..], probe)
      case ProbeFails => Failed
  }

  /** `PYMOL_CAPS` after `detect_pymol_capabilities` ran on `caps`: sculpting is reported
      only when the host knows `sculpting`, and the stored name is either kept or replaced
      by a candidate the host knows. */
  function Detected(caps: Caps, probe: string -> Probe): (r: Caps)
    ensures r.supportsSculpting ==> probe(SculptingSetting) == Recognised
    ensures r.sculptSettingName.Some? ==>
              || r.sculptSettingName == caps.sculptSettingName
              || (r.sculptSettingName.value in Candidates && probe(r.sculptSettingName.value) == Recognised)
  {
    ScanFindsFirst(Candidates, probe);
    match probe(SculptingSetting)
    case ProbeFails => Caps(false, None)
    case _ =>
      var supports := probe(SculptingSetting).Recognised?;
      match ScanNames(Candidates, probe)
      case Found(name) => Caps(supports, Some(name))
      case NoneFound => Caps(supports, caps.sculptSettingName)
      case Failed => Caps(false, None)
  }

  /** Python truthiness of `PYMOL_CAPS["sculpt_setting_name"]`. */
  predicate HasSettingName(caps: Caps)
  {
    caps.sculptSettingName.Some? && caps.sculptSettingName.value != ""
  }

  /** The refinement combo box's items. */
  function RefinementOptions(caps: Caps): (r: seq<string>)
    ensures |r| >= 1 && r[0] == DefaultRotamer
    ensures SculptRotamer in r <==> caps.supportsSculpting && HasSettingName(caps)
  {
    [DefaultRotamer] + if caps.supportsSculpting && HasSettingName(caps) then [SculptRotamer] else []
  }

  /** The loop finds the first name that is recognised when every name before it is
      unrecognised, finds nothing when every name is unrecognised, and only ever reports a
      listed name that is recognised. */
  lemma {:induction false} ScanFindsFirst(names: seq<string>, probe: string -> Probe)
    ensures forall i :: 0 <= i < |names| && probe(names[i]) == Recognised
                        && (forall j :: 0 <= j < i ==> probe(names[j]) == Unrecognised)
                        ==> ScanNames(names, probe) == Found(names[i])
    ensures (forall i :: 0 <= i < |names| ==> probe(names[i]) == Unrecognised) <==> ScanNames(names, probe) == NoneFound
    ensures ScanNames(names, probe).Found? ==>
              ScanNames(names, probe).name in names && probe(ScanNames(names, probe).name) == Recognised
  {
    if names != [] {
      ScanFindsFirst(names[1..], probe);
      forall i | 0 <= i < |names| && probe(names[i]) == Recognised
                 && (forall j :: 0 <= j < i ==> probe(names[j]) == Unrecognised)
        ensures ScanNames(names, probe) == Found(names[i])
      {
        if i > 0 {
          assert probe(names[0]) == Unrecognised;
          assert names[1..][i - 1] == names[i];
          forall j | 0 <= j < i - 1 ensures probe(names[1..][j]) == Unrecognised {
            assert names[1..][j] == names[j + 1];
          }
        }
      }
      if probe(names[0]) == Unrecognised {
        forall i | 0 <= i < |names[1..]| ensures names[1..][i] == names[i + 1] { }
      }
    }
  }

  /** The first candidate in list order that the host recognises wins, whatever was stored. */
  lemma FirstRecognisedWins(caps: Caps, probe: string -> Probe, i: nat)
    requires probe(SculptingSetting) != ProbeFails
    requires i < |Candidates| && probe(Candidates[i]) == Recognised
    requires forall j :: 0 <= j < i ==> probe(Candidates[j]) == Unrecognised
    ensures Detected(caps, probe).sculptSettingName == Some(Candidates[i])
    ensures Detected(caps, probe).supportsSculpting <==> probe(SculptingSetting) == Recognised
  {
    ScanFindsFirst(Candidates, probe);
  }

  /** When no candidate is recognised the stored name is left as it was, not reset. */
  lemma NoneRecognisedKeepsName(caps: Caps, probe: string -> Probe)
    requires probe(SculptingSetting) != ProbeFails
    requires forall i :: 0 <= i < |Candidates| ==> probe(Candidates[i]) == Unrecognised
    ensures Detected(caps, probe).sculptSettingName == caps.sculptSettingName
    ensures Detected(caps, probe).supportsSculpting <==> probe(SculptingSetting) == Recognised
  {
    ScanFindsFirst(Candidates, probe);
  }

  /** An exception other than `CmdException` anywhere in the probing resets both entries. */
  lemma FailureResets(caps: Caps, probe: string -> Probe)
    requires probe(SculptingSetting) == ProbeFails
             || exists i :: 0 <= i < |Candidates| && probe(Candidates[i]) == ProbeFails
                            && forall j :: 0 <= j < i ==> probe(Candidates[j]) == Unrecognised
    ensures Detected(caps, probe) == Caps(false, None)
  {
    if probe(SculptingSetting) != ProbeFails {
      var i :| 0 <= i < |Candidates| && probe(Candidates[i]) == ProbeFails
               && forall j :: 0 <= j < i ==> probe(Candidates[j]) == Unrecognised;
      if i == 1 {
        assert probe(Candidates[0]) == Unrecognised;
      }
    }
  }

  /** Starting from the module's initial entries, "Sculpt Rotamer" is offered exactly when
      the host knows `sculpting` and one of the candidates. */
  lemma SculptOfferedAfterDetection(probe: string -> Probe)
    ensures SculptRotamer in RefinementOptions(Detected(InitialCaps, probe))
        <==> probe(SculptingSetting) == Recognised
             && exists i :: 0 <= i < |Candidates| && probe(Candidates[i]) == Recognised
                            && forall j :: 0 <= j < i ==> probe(Candidates[j]) == Unrecognised
  {
    ScanFindsFirst(Candidates, probe);
    var caps := Detected(InitialCaps, probe);
    if probe(SculptingSetting) == Recognised {
      if probe(Candidates[0]) == Recognised {
        assert Candidates[0] != "";
      } else if probe(Candidates[0]) == Unrecognised && probe(Candidates[1]) == Recognised {
        assert Candidates[1] != "";
      }
    }
  }

  /** `PYMOL_CAPS` as a mutable object, the way the module-level dict is used. */
  class PymolCaps {
    var supportsSculpting: bool
    var sculptSettingName: Option<string>

    function State(): Caps
      reads this
    {
      Caps(supportsSculpting, sculptSettingName)
    }

    constructor()
      ensures State() == InitialCaps
    {
      supportsSculpting, sculptSettingName := false, None;
    }

    /** `detect_pymol_capabilities`: the `sculpting` probe, then the candidate loop with its
        `break`; an exception other than `CmdException` resets both entries. */
    method Detect(probe: string -> Probe)
      modifies this
      ensures State() == Detected(old(State()), probe)
    {
      match probe(SculptingSetting) {
        case ProbeFails =>
          supportsSculpting, sculptSettingName := false, None;
          return;
        case Recognised =>
          supportsSculpting := true;
        case Unrecognised =>
          supportsSculpting := false;
      }
      var i := 0;
      while i < |Candidates|
        invariant i <= |Candidates|
        invariant ScanNames(Candidates, probe) == ScanNames(Candidates[i..], probe)
        invariant sculptSettingName == old(sculptSettingName)
        invariant supportsSculpting == probe(SculptingSetting).Recognised?
      {
        assert Candidates[i..][1..] == Candidates[i + 1..];
        var name := Candidates[i];
        match probe(name) {
          case Recognised =>
            sculptSettingName := Some(name);
            break;
          case Unrecognised =>
          case ProbeFails =>
            supportsSculpting, sculptSettingName := false, None;
            return;
        }
        i := i + 1;
      }
    }
  }
}
