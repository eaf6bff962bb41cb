/** Platform detection and the font sizes it selects (`Config.is_raspberry_pi`,
    `CLOCK_FONT_SIZE` and `FOOTER_FONT_SIZE` in clock.py). The three files the
    detection reads are inputs. */
module Config {
  import opened Text
  import opened Results
  import opened Files

  /** The strings looked for in /proc/cpuinfo. */
  const CpuMarkers: seq<string> := ["Raspberry Pi", "BCM2708", "BCM2709", "BCM2835"]
  /** The string looked for in the two device-tree model files. */
  const ModelMarker: string := "Raspberry Pi"

  /** Reading the file raised something other than FileNotFoundError, which
      the detection does not catch. */
  predicate Raises(f: FileRead)
  {
    f.OsError? || f.DecodeError?
  }

  /** /proc/cpuinfo was read and names one of the markers. */
  predicate CpuMentionsPi(cpuinfo: FileRead)
  {
    cpuinfo.Contents? && exists k :: 0 <= k < |CpuMarkers| && Contains(cpuinfo.text, CpuMarkers[k])
  }

  /** A model file was read and its text, as stored on disk, names the board. */
  predicate ModelMentionsPi(model: FileRead)
  {
    model.Contents? && Contains(model.text, ModelMarker)
  }

  /** Whether one of `markers` occurs in `text`, tried in order. */
  function AnyMarker(text: string, markers: seq<string>): (found: bool)
    ensures found <==> exists k :: 0 <= k < |markers| && Contains(text, markers[k])
    decreases |markers|
  {
    if |markers| == 0 then false
    else if Contains(text, markers[0]) then true
    else
      var found := AnyMarker(text, markers[1..]);
      assert forall k :: 1 <= k < |markers| ==> markers[k] == markers[1..][k - 1];
      found
  }

  /** The model text is looked at after `strip()`, which cannot change
      whether the board's name occurs in it. */
  lemma StrippedModelAgrees(model: FileRead)
    ensures model.Contents? ==> (Contains(Strip(model.text), ModelMarker) <==> ModelMentionsPi(model))
  {
    if model.Contents? {
      assert !IsSpace('R') && !IsSpace('i');
      StripKeepsWord(model.text, ModelMarker);
    }
  }

  /** `Config.is_raspberry_pi()`: /proc/cpuinfo first, then the two model
      files, each after `strip()`. A missing file moves on to the next one;
      any other error escapes. The answer is yes exactly when one of the files
      that was reached names the board, whitespace around the model text
      making no difference. */
  function IsRaspberryPi(cpuinfo: FileRead, treeModel: FileRead, firmwareModel: FileRead): (r: Result<bool, string>)
    ensures CpuMentionsPi(cpuinfo) ==> r == Success(true)
    ensures !Raises(cpuinfo) && ModelMentionsPi(treeModel) ==> r == Success(true)
    ensures !Raises(cpuinfo) && !Raises(treeModel) && ModelMentionsPi(firmwareModel) ==> r == Success(true)
    ensures r.Success? ==>
              (r.value <==> CpuMentionsPi(cpuinfo) || ModelMentionsPi(treeModel) || ModelMentionsPi(firmwareModel))
    ensures r.Failure? ==> Raises(cpuinfo) || Raises(treeModel) || Raises(firmwareModel)
    ensures !Raises(cpuinfo) && !Raises(treeModel) && !Raises(firmwareModel) ==> r.Success?
    ensures Raises(cpuinfo) ==> r == Failure(cpuinfo.reason)
    ensures !CpuMentionsPi(cpuinfo) && !Raises(cpuinfo) && Raises(treeModel) ==> r == Failure(treeModel.reason)
    ensures (!CpuMentionsPi(cpuinfo) && !Raises(cpuinfo) && !ModelMentionsPi(treeModel) && !Raises(treeModel)
             && Raises(firmwareModel)) ==> r == Failure(firmwareModel.reason)
  {
    StrippedModelAgrees(treeModel);
    StrippedModelAgrees(firmwareModel);
    if cpuinfo.Contents? && AnyMarker(cpuinfo.text, CpuMarkers) then Success(true)
    else if Raises(cpuinfo) then Failure(cpuinfo.reason)
    else if treeModel.Contents? && Contains(Strip(treeModel.text), ModelMarker) then Success(true)
    else if Raises(treeModel) then Failure(treeModel.reason)
    else if firmwareModel.Contents? && Contains(Strip(firmwareModel.text), ModelMarker) then Success(true)
    else if Raises(firmwareModel) then Failure(firmwareModel.reason)
    else Success(false)
  }

  /** The two font sizes that depend on the platform. */
  datatype Fonts = Fonts(clock: nat, footer: nat)

  function PlatformFonts(onPi: bool): Fonts
  {
    if onPi then Fonts(100, 10) else Fonts(300, 50)
  }

  /** `CLOCK_FONT_SIZE` and `FOOTER_FONT_SIZE`, each of which runs the
      detection: the small pair on a board named by its files, the large pair
      anywhere else, and the detection's exception when a file cannot be read. */
  function DetectFonts(cpuinfo: FileRead, treeModel: FileRead, firmwareModel: FileRead): (r: Result<Fonts, string>)
    ensures r.Failure? <==> IsRaspberryPi(cpuinfo, treeModel, firmwareModel).Failure?
    ensures r.Success? ==> (r.value.clock == 100 <==> r.value.footer == 10)
    ensures r.Success? && (CpuMentionsPi(cpuinfo) || ModelMentionsPi(treeModel) || ModelMentionsPi(firmwareModel)) ==>
              r.value == Fonts(100, 10)
    ensures r.Success? && !(CpuMentionsPi(cpuinfo) || ModelMentionsPi(treeModel) || ModelMentionsPi(firmwareModel)) ==>
              r.value == Fonts(300, 50)
  {
    match IsRaspberryPi(cpuinfo, treeModel, firmwareModel)
    case Failure(e) => Failure(e)
    case Success(onPi) => Success(PlatformFonts(onPi))
  }
}
