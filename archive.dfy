/** A zip archive as the code sees it through `zipfile`: an ordered list of
    entries, each a name and its (already decoded) content. */
module Archive {
  import opened Wrappers

  /** One member of the archive: its name (`info.filename`) and content. */
  datatype Entry = Entry(name: string, content: string)

  /** `zip.namelist()`: the entry names in writing order. */
  function Names(zip: seq<Entry>): (names: seq<string>)
    ensures |names| == |zip|
    ensures forall i :: 0 <= i < |zip| ==> names[i] == zip[i].name
    decreases |zip|
  {
    if |zip| == 0 then []
    else Names(zip[..|zip| - 1]) + [zip[|zip| - 1].name]
  }

  /** `zip.read(name)`: the content of the entry written last under `name`
      (a later write of the same name shadows an earlier one); `None` stands
      for the `KeyError` of a name that is not in the archive. */
  function Read(zip: seq<Entry>, name: string): (r: Option<string>)
    ensures r.None? <==> name !in Names(zip)
    ensures r.Some? ==> exists i :: 0 <= i < |zip| && zip[i] == Entry(name, r.value)
                          && forall j :: i < j < |zip| ==> zip[j].name != name
    decreases |zip|
  {
    if |zip| == 0 then None
    else if zip[|zip| - 1].name == name then Some(zip[|zip| - 1].content)
    else Read(zip[..|zip| - 1], name)
  }

  /** The names of a concatenation of archives. */
  lemma NamesOfConcat(a: seq<Entry>, b: seq<Entry>)
    ensures Names(a + b) == Names(a) + Names(b)
  {
  }

  /** An entry that no later entry shadows is the one `zip.read` returns. */
  lemma {:induction false} ReadUnshadowed(zip: seq<Entry>, i: nat)
    requires i < |zip|
    requires forall j :: i < j < |zip| ==> zip[j].name != zip[i].name
    ensures Read(zip, zip[i].name) == Some(zip[i].content)
    decreases |zip|
  {
    if i < |zip| - 1 {
      var init := zip[..|zip| - 1];
      assert init[i] == zip[i];
      ReadUnshadowed(init, i);
    }
  }
}
