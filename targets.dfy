/**
 The transform at the heart of one refresh: the decoded container list becomes
 the list of targets that is written to the target file, one target per
 container and in the same order. Fetching the list and writing the file are
 not part of this module; what they exchange with it is a sequence of reported
 containers in and a sequence of file entries out.
 */
module Targets {

  import opened Labels

  /** A container as the runtime reports it: its `Id` and its raw `Labels` mapping. */
  datatype RawContainer = RawContainer(Id: string, Labels: LabelMap)

  /** An element of the decoded container list: the id and the recognised labels. */
  datatype Container = Container(ID: string, Labels: ContainerLabels)

  /** A target the log shipper can scrape: its id list and the labels to attach. */
  datatype Target = Target(Targets: seq<string>, Labels: TargetLabels)

  /** One element of the written target file: the `targets` list and the `Labels` object. */
  datatype Entry = Entry(targets: seq<string>, Labels: LabelMap)

  /** Decoding one reported container: the id is kept, the labels are extracted. */
  function Decode(reported: RawContainer): (c: Container)
    ensures c.ID == reported.Id
    ensures forall f :: c.Labels.Get(f) == Lookup(reported.Labels, RawKey(f))
  {
    Container(reported.Id, Extract(reported.Labels))
  }

  /** How one target is written. The `Labels` object is always present (its omitempty
      tag has no effect on a struct), and inside it empty labels are left out. */
  function Written(t: Target): (e: Entry)
    ensures e.targets == t.Targets
    ensures forall f :: OutKey(f) in e.Labels <==> t.Labels.Get(f) != ""
    ensures forall f :: OutKey(f) in e.Labels ==> e.Labels[OutKey(f)] == t.Labels.Get(f)
    ensures forall key :: key in e.Labels ==> e.Labels[key] != "" && exists f :: key == OutKey(f)
  {
    Entry(t.Targets, Encode(t.Labels))
  }

  /** The assembly loop: starting from an empty list, one target is appended per
      container, holding that container's id alone and its converted labels. */
  method ContainersToTargets(containers: seq<Container>) returns (targets: seq<Target>)
    ensures |targets| == |containers|
    ensures forall i :: 0 <= i < |containers| ==> targets[i].Targets == [containers[i].ID]
    ensures forall i :: 0 <= i < |containers| ==> targets[i].Labels == Convert(containers[i].Labels)
  {
    targets := [];
    for i := 0 to |containers|
      invariant |targets| == i
      invariant forall j :: 0 <= j < i ==> targets[j].Targets == [containers[j].ID]
      invariant forall j :: 0 <= j < i ==> targets[j].Labels == Convert(containers[j].Labels)
    {
      var c := containers[i];
      targets := targets + [Target([c.ID], Convert(c.Labels))];
    }
  }

  /** The transform of one refresh, from the reported containers to the entries of
      the target file: one entry per container, in order, whose id list is that
      container's id alone and whose label object is the one its raw labels yield. */
  method TargetFile(reported: seq<RawContainer>) returns (file: seq<Entry>)
    ensures |file| == |reported|
    ensures forall i :: 0 <= i < |reported| ==> file[i].targets == [reported[i].Id]
    ensures forall i :: 0 <= i < |reported| ==> file[i].Labels == OutputLabels(reported[i].Labels)
  {
    var containers := seq(|reported|, i requires 0 <= i < |reported| => Decode(reported[i]));
    var targets := ContainersToTargets(containers);
    file := seq(|targets|, i requires 0 <= i < |targets| => Written(targets[i]));
  }

  /** Refreshing twice from an unchanged container list writes the same file twice. */
  method RefreshTwice(reported: seq<RawContainer>) returns (first: seq<Entry>, second: seq<Entry>)
    ensures first == second
  {
    first := TargetFile(reported);
    second := TargetFile(reported);
    assert |first| == |second|;
    forall i | 0 <= i < |first|
      ensures first[i] == second[i]
    {
      assert first[i].targets == second[i].targets;
      assert first[i].Labels == second[i].Labels;
    }
  }
}
