/** models/user_input.py: read a person's name, reject it when it is
    blank, and create the directory `data/samples/<name>` for their face
    samples. */
module UserInput {
  import opened Wrappers
  import opened PyText
  import opened OsPath

  datatype InputError = EmptyName

  const SamplesRoot: string := "data/samples"

  /** `os.path.join('data', 'samples', name)` */
  function SamplesDir(name: string): (dir: string)
    ensures IsAbsolute(name) ==> dir == name
    ensures !IsAbsolute(name) ==> dir == SamplesRoot + "/" + name
  {
    Join(Join("data", "samples"), name)
  }

  /** The name as typed, stripped; a name that is empty once stripped is
      refused. */
  function ValidateName(typed: string): (r: Result<string, InputError>)
    ensures r.Failure? <==> AllSpace(typed)
    ensures r.Success? ==> r.value == Strip(typed) && r.value != []
    ensures r.Success? ==> !IsSpace(r.value[0]) && !IsSpace(r.value[|r.value| - 1])
  {
    var name := Strip(typed);
    if name == [] then Failure(EmptyName) else Success(name)
  }

  /** A relative accepted name gets the directory data/samples/<name>,
      and making that directory creates data, data/samples and it. */
  lemma {:induction false} AcceptedNameDir(typed: string)
    requires ValidateName(typed).Success?
    requires !IsAbsolute(ValidateName(typed).value)
    ensures var name := ValidateName(typed).value;
            SamplesDir(name) == "data/samples/" + name &&
            {"data", "data/samples"} <= DirChain(SamplesDir(name))
  {
    var p := SamplesDir(ValidateName(typed).value);
    assert p[..4] == "data" && p[4] == Sep;
    assert p[..12] == "data/samples" && p[12] == Sep;
  }

  /** A name that is absolute once stripped (it starts with '/') is joined
      as it is: the directory lies outside data/samples. */
  lemma AbsoluteNameEscapes()
    ensures ValidateName(" /tmp ") == Success("/tmp")
    ensures SamplesDir("/tmp") == "/tmp"
  {
    var typed := " /tmp ";
    assert IsStripCut(typed, 1, 5);
    StripCutUnique(typed, 1, 5);
    assert typed[1..5] == "/tmp";
  }

  /** The script: validate, then `os.makedirs(samples_dir, exist_ok=True)`.
      On a blank name it reports the error and exits before touching the
      file system. */
  method Run(fs: FileSystem, typed: string) returns (r: Result<string, InputError>)
    modifies fs
    ensures AllSpace(typed) ==> r == Failure(EmptyName) && fs.dirs == old(fs.dirs)
    ensures !AllSpace(typed) ==>
              r == Success(SamplesDir(Strip(typed))) &&
              fs.dirs == old(fs.dirs) + DirChain(SamplesDir(Strip(typed)))
  {
    var name := ValidateName(typed);
    if name.Failure? {
      return Failure(EmptyName);
    }
    var samplesDir := SamplesDir(name.value);
    var _ := fs.MakeDirs(samplesDir);
    r := Success(samplesDir);
  }
}
