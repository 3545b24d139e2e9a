/** Options: the settings panel.  It writes the exporter's encoding settings
    (format, sub-format, quality, threshold, compression level and the boolean
    switches), clamps typed numbers into range, keeps the quality and threshold
    text of the sub-format not currently selected, and flips the per-map-type
    conversion toggles together with the matching texture list entries. */
module OptionsPanel {
  import opened Wrappers
  import opened Exceptions
  import opened Text
  import opened TextureListing

  /** ImportExport.SubFormat values.  The enum's declaration is not part of this
      model; UASTC = 1 is inferred from Options.cs, which starts
      `previousSubFormat` at 1 beside the UASTC defaults ("4", "0.75") and the
      UASTC quality limiter 4. */
  const UASTC: int := 1
  const ETC1S: int := 0

  /** The labels of the quality and threshold fields under each sub-format. */
  const UastcQualityLabel: string := "Encoding quality [0-4]"
  const UastcThresholdLabel: string := "RDO Threshold [0.2-3.0]"
  const Etc1sQualityLabel: string := "Encoding quality [0-255]"
  const Etc1sThresholdLabel: string := "RDO Threshold [1.0-2.0]"

  /** The exporter fields the panel writes. */
  datatype Settings = Settings(
    format: int,
    subFormat: int,
    quality: int,
    threshold: real,
    level: int,
    useExistingBasis: bool,
    showPreview: bool,
    useMultithreading: bool,
    preserveAlpha: bool,
    convertLightmaps: bool)

  /** The panel's own state: the texts of its labels and input fields, the
      limiters, the remembered sub-format and the saved texts of each
      sub-format. */
  datatype Ui = Ui(
    qualityLabel: string,
    thresholdLabel: string,
    qualityInput: string,
    thresholdInput: string,
    levelInput: string,
    qualityLimiter: int,
    thresholdLowerLimiter: real,
    thresholdUpperLimiter: real,
    previousSubFormat: int,
    previousUASTCQuality: string,
    previousETC1SQuality: string,
    previousUASTCThreshold: string,
    previousETC1SThreshold: string)

  /** Everything the panel holds but the toggle array and the texture list. */
  datatype Panel = Panel(io: Settings, ui: Ui)

  /** `v` limited to [lo, hi] as SetQuality and SetCompLevel do it: too large
      becomes `hi`, else too small becomes `lo`. */
  function Clamp(v: int, lo: int, hi: int): (r: int)
    requires lo <= hi
    ensures lo <= r <= hi
    ensures lo <= v <= hi ==> r == v
    ensures v > hi ==> r == hi
    ensures v < lo ==> r == lo
  {
    if v > hi then hi else if v < lo then lo else v
  }

  /** The largest quality a sub-format accepts. */
  function QualityMax(subFormat: int): (m: int)
    ensures subFormat == UASTC ==> m == 4
    ensures subFormat != UASTC ==> m == 255
  {
    if subFormat == UASTC then 4 else 255
  }

  // ---------------------------------------------------------------------------
  // SetQuality and SetCompLevel.
  // ---------------------------------------------------------------------------

  /** SetQuality(text): the parsed number clamped to [0, 4] for UASTC and to
      [0, 255] otherwise goes into the input field and io.quality; text that does
      not parse is logged and nothing changes. */
  function WithQuality(p: Panel, text: string): (r: Panel)
    ensures r.io == p.io.(quality := r.io.quality) && r.ui == p.ui.(qualityInput := r.ui.qualityInput)
    ensures r != p ==> 0 <= r.io.quality <= QualityMax(p.io.subFormat)
  {
    match ParseInt32(text)
    case Failure(_) => p
    case Success(q) =>
      var v := Clamp(q, 0, QualityMax(p.io.subFormat));
      Panel(p.io.(quality := v), p.ui.(qualityInput := IntToString(v)))
  }

  /** SetCompLevel(text): the parsed number clamped to [1, 5] goes into the
      input field and io.level; text that does not parse changes nothing. */
  function WithLevel(p: Panel, text: string): (r: Panel)
    ensures r.io == p.io.(level := r.io.level) && r.ui == p.ui.(levelInput := r.ui.levelInput)
    ensures r != p ==> 1 <= r.io.level <= 5
  {
    match ParseInt32(text)
    case Failure(_) => p
    case Success(l) =>
      var v := Clamp(l, 1, 5);
      Panel(p.io.(level := v), p.ui.(levelInput := IntToString(v)))
  }

  /** A parsed quality is stored clamped into the sub-format's range, with its
      text in the field; a parse failure leaves the panel as it was. */
  lemma WithQualityStores(p: Panel, text: string)
    ensures ParseInt32(text).Failure? ==> WithQuality(p, text) == p
    ensures ParseInt32(text).Success? ==>
              var q := WithQuality(p, text);
              && 0 <= q.io.quality <= QualityMax(p.io.subFormat)
              && (0 <= ParseInt32(text).value <= QualityMax(p.io.subFormat) ==> q.io.quality == ParseInt32(text).value)
              && q == Panel(p.io.(quality := q.io.quality), p.ui.(qualityInput := IntToString(q.io.quality)))
  {
  }

  /** The field's text reads back as the stored quality, and entering it again
      changes nothing. */
  lemma WithQualityIdempotent(p: Panel, text: string)
    requires ParseInt32(text).Success?
    ensures ParseInt32(WithQuality(p, text).ui.qualityInput) == Success(WithQuality(p, text).io.quality)
    ensures WithQuality(WithQuality(p, text), WithQuality(p, text).ui.qualityInput) == WithQuality(p, text)
  {
    var q := WithQuality(p, text);
    ParseIntToString(q.io.quality);
  }

  lemma WithLevelStores(p: Panel, text: string)
    ensures ParseInt32(text).Failure? ==> WithLevel(p, text) == p
    ensures ParseInt32(text).Success? ==>
              var q := WithLevel(p, text);
              && 1 <= q.io.level <= 5
              && (1 <= ParseInt32(text).value <= 5 ==> q.io.level == ParseInt32(text).value)
              && q == Panel(p.io.(level := q.io.level), p.ui.(levelInput := IntToString(q.io.level)))
  {
  }

  lemma WithLevelIdempotent(p: Panel, text: string)
    requires ParseInt32(text).Success?
    ensures ParseInt32(WithLevel(p, text).ui.levelInput) == Success(WithLevel(p, text).io.level)
    ensures WithLevel(WithLevel(p, text), WithLevel(p, text).ui.levelInput) == WithLevel(p, text)
  {
    var q := WithLevel(p, text);
    ParseIntToString(q.io.level);
  }

  // ---------------------------------------------------------------------------
  // SetTextureFormat.
  // ---------------------------------------------------------------------------

  /** The format a texture-format choice selects: 1 for choices below 2. */
  function FormatOf(f: int): (r: int)
    ensures r == 1 <==> f < 2
    ensures r == 0 <==> f >= 2
  {
    if f < 2 then 1 else 0
  }

  /** The sub-format a choice selects: UASTC for even choices (the C# remainder
      of a negative odd number is -1, still not 0). */
  function SubFormatOf(f: int): (r: int)
    ensures r == UASTC <==> f % 2 == 0
    ensures r == ETC1S <==> f % 2 != 0
  {
    if f % 2 == 0 then UASTC else ETC1S
  }

  /** Switching to UASTC when ETC1S was selected: the labels change, the field
      texts are saved as ETC1S's, UASTC's saved texts are put in the fields and
      parsed into io (Int32.Parse, then float.Parse; an exception leaves what
      was done before it), then the limiters and the remembered sub-format
      change. */
  function ToUastc(p: Panel, parseFloat: string -> Result<real, Exception>): (r: (Panel, Option<Exception>))
    ensures r.0.io == p.io.(quality := r.0.io.quality, threshold := r.0.io.threshold)
    ensures r.0.ui.previousETC1SQuality == p.ui.qualityInput && r.0.ui.previousETC1SThreshold == p.ui.thresholdInput
    ensures r.0.ui.qualityInput == p.ui.previousUASTCQuality
    ensures r.0.ui.previousUASTCQuality == p.ui.previousUASTCQuality && r.0.ui.previousUASTCThreshold == p.ui.previousUASTCThreshold
    ensures r.0.ui.qualityLabel == UastcQualityLabel && r.0.ui.thresholdLabel == UastcThresholdLabel
    ensures r.0.ui.levelInput == p.ui.levelInput
    ensures r.1.None? <==> ParseInt32(p.ui.previousUASTCQuality).Success? && parseFloat(p.ui.previousUASTCThreshold).Success?
    ensures ParseInt32(p.ui.previousUASTCQuality).Failure? ==> r == (p.(ui := r.0.ui), Some(ParseInt32(p.ui.previousUASTCQuality).error))
    ensures ParseInt32(p.ui.previousUASTCQuality).Success? ==> r.0.io.quality == ParseInt32(p.ui.previousUASTCQuality).value
    ensures ParseInt32(p.ui.previousUASTCQuality).Success? ==> r.0.ui.thresholdInput == p.ui.previousUASTCThreshold
    ensures r.1.None? ==>
              && Success(r.0.io.threshold) == parseFloat(p.ui.previousUASTCThreshold)
              && r.0.ui.qualityLimiter == 4 && r.0.ui.thresholdLowerLimiter == 0.2
              && r.0.ui.thresholdUpperLimiter == 3.0 && r.0.ui.previousSubFormat == UASTC
  {
    var u1 := p.ui.(qualityLabel := UastcQualityLabel, thresholdLabel := UastcThresholdLabel,
                    previousETC1SQuality := p.ui.qualityInput, previousETC1SThreshold := p.ui.thresholdInput,
                    qualityInput := p.ui.previousUASTCQuality);
    match ParseInt32(p.ui.previousUASTCQuality)
    case Failure(e) => (Panel(p.io, u1), Some(e))
    case Success(q) =>
      var u2 := u1.(thresholdInput := p.ui.previousUASTCThreshold);
      match parseFloat(p.ui.previousUASTCThreshold)
      case Failure(e) => (Panel(p.io.(quality := q), u2), Some(e))
      case Success(t) =>
        (Panel(p.io.(quality := q, threshold := t),
               u2.(qualityLimiter := 4, thresholdLowerLimiter := 0.2, thresholdUpperLimiter := 3.0,
                   previousSubFormat := UASTC)), None)
  }

  /** The mirror image: switching to ETC1S when UASTC was selected. */
  function ToEtc1s(p: Panel, parseFloat: string -> Result<real, Exception>): (r: (Panel, Option<Exception>))
    ensures r.0.io == p.io.(quality := r.0.io.quality, threshold := r.0.io.threshold)
    ensures r.0.ui.previousUASTCQuality == p.ui.qualityInput && r.0.ui.previousUASTCThreshold == p.ui.thresholdInput
    ensures r.0.ui.qualityInput == p.ui.previousETC1SQuality
    ensures r.0.ui.previousETC1SQuality == p.ui.previousETC1SQuality && r.0.ui.previousETC1SThreshold == p.ui.previousETC1SThreshold
    ensures r.0.ui.qualityLabel == Etc1sQualityLabel && r.0.ui.thresholdLabel == Etc1sThresholdLabel
    ensures r.0.ui.levelInput == p.ui.levelInput
    ensures r.1.None? <==> ParseInt32(p.ui.previousETC1SQuality).Success? && parseFloat(p.ui.previousETC1SThreshold).Success?
    ensures ParseInt32(p.ui.previousETC1SQuality).Failure? ==> r == (p.(ui := r.0.ui), Some(ParseInt32(p.ui.previousETC1SQuality).error))
    ensures ParseInt32(p.ui.previousETC1SQuality).Success? ==> r.0.io.quality == ParseInt32(p.ui.previousETC1SQuality).value
    ensures ParseInt32(p.ui.previousETC1SQuality).Success? ==> r.0.ui.thresholdInput == p.ui.previousETC1SThreshold
    ensures r.1.None? ==>
              && Success(r.0.io.threshold) == parseFloat(p.ui.previousETC1SThreshold)
              && r.0.ui.qualityLimiter == 255 && r.0.ui.thresholdLowerLimiter == 1.0
              && r.0.ui.thresholdUpperLimiter == 2.0 && r.0.ui.previousSubFormat == ETC1S
  {
    var u1 := p.ui.(qualityLabel := Etc1sQualityLabel, thresholdLabel := Etc1sThresholdLabel,
                    previousUASTCQuality := p.ui.qualityInput, previousUASTCThreshold := p.ui.thresholdInput,
                    qualityInput := p.ui.previousETC1SQuality);
    match ParseInt32(p.ui.previousETC1SQuality)
    case Failure(e) => (Panel(p.io, u1), Some(e))
    case Success(q) =>
      var u2 := u1.(thresholdInput := p.ui.previousETC1SThreshold);
      match parseFloat(p.ui.previousETC1SThreshold)
      case Failure(e) => (Panel(p.io.(quality := q), u2), Some(e))
      case Success(t) =>
        (Panel(p.io.(quality := q, threshold := t),
               u2.(qualityLimiter := 255, thresholdLowerLimiter := 1.0, thresholdUpperLimiter := 2.0,
                   previousSubFormat := ETC1S)), None)
  }

  /** SetTextureFormat(f): format and sub-format are set from `f`; a change of
      sub-format swaps the saved texts; `parseFloat` is float.Parse. */
  function FormatSwitched(p: Panel, f: int, parseFloat: string -> Result<real, Exception>): (r: (Panel, Option<Exception>))
    ensures r.0.io.format == FormatOf(f) && r.0.io.subFormat == SubFormatOf(f)
    ensures r.1.None? ==> r.0.ui.previousSubFormat == SubFormatOf(f)
  {
    var p0 := p.(io := p.io.(format := FormatOf(f), subFormat := SubFormatOf(f)));
    if p0.io.subFormat == UASTC && p0.io.subFormat != p.ui.previousSubFormat then ToUastc(p0, parseFloat)
    else if p0.io.subFormat != p.ui.previousSubFormat then ToEtc1s(p0, parseFloat)
    else (p0, None)
  }

  /** Format and sub-format always follow `f`; re-selecting the remembered
      sub-format changes nothing else. */
  lemma FormatSwitchedSets(p: Panel, f: int, parseFloat: string -> Result<real, Exception>)
    ensures FormatSwitched(p, f, parseFloat).0.io.format == FormatOf(f)
    ensures FormatSwitched(p, f, parseFloat).0.io.subFormat == SubFormatOf(f)
    ensures SubFormatOf(f) == p.ui.previousSubFormat ==>
              FormatSwitched(p, f, parseFloat) == (p.(io := p.io.(format := FormatOf(f), subFormat := SubFormatOf(f))), None)
  {
  }

  /** A completed switch saves the texts the fields had under the old
      sub-format, fills the fields with the new sub-format's saved texts, parses
      them into io and remembers the new sub-format. */
  lemma FormatSwitchedSwaps(p: Panel, f: int, parseFloat: string -> Result<real, Exception>)
    requires SubFormatOf(f) != p.ui.previousSubFormat
    requires FormatSwitched(p, f, parseFloat).1.None?
    ensures var q := FormatSwitched(p, f, parseFloat).0;
            && q.ui.previousSubFormat == SubFormatOf(f)
            && (SubFormatOf(f) == UASTC ==>
                  && q.ui.previousETC1SQuality == p.ui.qualityInput && q.ui.previousETC1SThreshold == p.ui.thresholdInput
                  && q.ui.qualityInput == p.ui.previousUASTCQuality && q.ui.thresholdInput == p.ui.previousUASTCThreshold
                  && q.ui.previousUASTCQuality == p.ui.previousUASTCQuality
                  && q.ui.previousUASTCThreshold == p.ui.previousUASTCThreshold
                  && Success(q.io.quality) == ParseInt32(p.ui.previousUASTCQuality)
                  && Success(q.io.threshold) == parseFloat(p.ui.previousUASTCThreshold)
                  && q.ui.qualityLimiter == 4)
            && (SubFormatOf(f) == ETC1S ==>
                  && q.ui.previousUASTCQuality == p.ui.qualityInput && q.ui.previousUASTCThreshold == p.ui.thresholdInput
                  && q.ui.qualityInput == p.ui.previousETC1SQuality && q.ui.thresholdInput == p.ui.previousETC1SThreshold
                  && q.ui.previousETC1SQuality == p.ui.previousETC1SQuality
                  && q.ui.previousETC1SThreshold == p.ui.previousETC1SThreshold
                  && Success(q.io.quality) == ParseInt32(p.ui.previousETC1SQuality)
                  && Success(q.io.threshold) == parseFloat(p.ui.previousETC1SThreshold)
                  && q.ui.qualityLimiter == 255)
  {
  }

  /** The quality and threshold texts saved for a sub-format. */
  function SavedQuality(u: Ui, subFormat: int): string
  {
    if subFormat == UASTC then u.previousUASTCQuality else u.previousETC1SQuality
  }

  function SavedThreshold(u: Ui, subFormat: int): string
  {
    if subFormat == UASTC then u.previousUASTCThreshold else u.previousETC1SThreshold
  }

  /** Switching to the other sub-format and back puts the quality and threshold
      texts back in the fields, keeps what was saved for the other sub-format,
      and saves the field texts for the sub-format the panel started in. */
  lemma FormatSwitchBack(p: Panel, f: int, g: int, parseFloat: string -> Result<real, Exception>)
    requires SubFormatOf(f) != p.ui.previousSubFormat
    requires SubFormatOf(g) == p.ui.previousSubFormat
    requires FormatSwitched(p, f, parseFloat).1.None?
    requires FormatSwitched(FormatSwitched(p, f, parseFloat).0, g, parseFloat).1.None?
    ensures var q := FormatSwitched(FormatSwitched(p, f, parseFloat).0, g, parseFloat).0;
            && q.ui.qualityInput == p.ui.qualityInput && q.ui.thresholdInput == p.ui.thresholdInput
            && SavedQuality(q.ui, SubFormatOf(f)) == SavedQuality(p.ui, SubFormatOf(f))
            && SavedThreshold(q.ui, SubFormatOf(f)) == SavedThreshold(p.ui, SubFormatOf(f))
            && SavedQuality(q.ui, SubFormatOf(g)) == p.ui.qualityInput
            && SavedThreshold(q.ui, SubFormatOf(g)) == p.ui.thresholdInput
            && q.ui.previousSubFormat == p.ui.previousSubFormat
  {
    var p0 := p.(io := p.io.(format := FormatOf(f), subFormat := SubFormatOf(f)));
    var q1 := FormatSwitched(p, f, parseFloat).0;
    var q0 := q1.(io := q1.io.(format := FormatOf(g), subFormat := SubFormatOf(g)));
    if SubFormatOf(f) == UASTC {
      assert FormatSwitched(p, f, parseFloat) == ToUastc(p0, parseFloat);
      assert FormatSwitched(q1, g, parseFloat) == ToEtc1s(q0, parseFloat);
    } else {
      assert FormatSwitched(p, f, parseFloat) == ToEtc1s(p0, parseFloat);
      assert FormatSwitched(q1, g, parseFloat) == ToUastc(q0, parseFloat);
    }
  }

  // ---------------------------------------------------------------------------
  // SetTextureToggle.
  // ---------------------------------------------------------------------------

  /** The texture list after the group of map type `t` has been given `v`. */
  function Regrouped(entries: seq<Entry>, t: int, v: bool): (r: seq<Entry>)
    ensures |r| == |entries|
  {
    seq(|entries|, k requires 0 <= k < |entries| =>
      if Ordinal(entries[k].mapType) == t then entries[k].(toggled := v) else entries[k])
  }

  /** Entries of map type `t` get `v`; the others, and every other field, stay. */
  lemma RegroupedSets(entries: seq<Entry>, t: int, v: bool)
    ensures forall k :: 0 <= k < |entries| ==>
              Regrouped(entries, t, v)[k] == entries[k].(toggled := Regrouped(entries, t, v)[k].toggled)
    ensures forall k :: 0 <= k < |entries| ==>
              Regrouped(entries, t, v)[k].toggled == if Ordinal(entries[k].mapType) == t then v else entries[k].toggled
  {
  }

  /** Toggling the same map type twice restores the toggles and, when every
      entry of the group had the toggle's value beforehand, the list too. */
  lemma ToggleTwice(toggles: seq<bool>, entries: seq<Entry>, t: int)
    requires 0 <= t < |toggles|
    requires forall k :: 0 <= k < |entries| && Ordinal(entries[k].mapType) == t ==> entries[k].toggled == toggles[t]
    ensures var once := toggles[t := !toggles[t]];
            once[t := !once[t]] == toggles
            && Regrouped(Regrouped(entries, t, once[t]), t, !once[t]) == entries
  {
  }

  class Options {
    /** The exporter's settings. */
    var io: Settings
    /** io.conversionToggles: one toggle per map type. */
    const conversionToggles: array<bool>
    /** The panel's widget texts and private fields. */
    var ui: Ui

    function State(): Panel
      reads this
    {
      Panel(io, ui)
    }

    /** The field initialisers; the exporter, the toggles and the widget texts
        come from the scene. */
    constructor (io: Settings, toggles: array<bool>, qualityLabel: string, thresholdLabel: string,
                 qualityInput: string, thresholdInput: string, levelInput: string)
      ensures this.io == io && conversionToggles == toggles
      ensures ui == Ui(qualityLabel, thresholdLabel, qualityInput, thresholdInput, levelInput,
                       4, 0.2, 3.0, 1, "4", "255", "0.75", "1.05")
    {
      this.io := io;
      conversionToggles := toggles;
      ui := Ui(qualityLabel, thresholdLabel, qualityInput, thresholdInput, levelInput,
               4, 0.2, 3.0, 1, "4", "255", "0.75", "1.05");
    }

    /** SetTextureFormat(format); `parseFloat` is float.Parse. */
    method SetTextureFormat(format: int, parseFloat: string -> Result<real, Exception>) returns (error: Option<Exception>)
      modifies this
      ensures State() == FormatSwitched(old(State()), format, parseFloat).0
      ensures error == FormatSwitched(old(State()), format, parseFloat).1
    {
      io := io.(format := FormatOf(format), subFormat := SubFormatOf(format));
      if io.subFormat == UASTC && io.subFormat != ui.previousSubFormat {
        error := SwitchToUastc(parseFloat);
      } else if io.subFormat != ui.previousSubFormat {
        error := SwitchToEtc1s(parseFloat);
      } else {
        error := None;
      }
    }

    /** The branch of SetTextureFormat that selects UASTC. */
    method SwitchToUastc(parseFloat: string -> Result<real, Exception>) returns (error: Option<Exception>)
      requires io.subFormat == UASTC
      modifies this
      ensures State() == ToUastc(old(State()), parseFloat).0
      ensures error == ToUastc(old(State()), parseFloat).1
    {
      ui := ui.(qualityLabel := UastcQualityLabel, thresholdLabel := UastcThresholdLabel,
                previousETC1SQuality := ui.qualityInput, previousETC1SThreshold := ui.thresholdInput,
                qualityInput := ui.previousUASTCQuality);
      var q := ParseInt32(ui.previousUASTCQuality);
      if q.Failure? {
        return Some(q.error);
      }
      io := io.(quality := q.value);
      ui := ui.(thresholdInput := ui.previousUASTCThreshold);
      var t := parseFloat(ui.previousUASTCThreshold);
      if t.Failure? {
        return Some(t.error);
      }
      io := io.(threshold := t.value);
      ui := ui.(qualityLimiter := 4, thresholdLowerLimiter := 0.2, thresholdUpperLimiter := 3.0,
                previousSubFormat := io.subFormat);
      error := None;
    }

    /** The branch of SetTextureFormat that selects ETC1S. */
    method SwitchToEtc1s(parseFloat: string -> Result<real, Exception>) returns (error: Option<Exception>)
      requires io.subFormat == ETC1S
      modifies this
      ensures State() == ToEtc1s(old(State()), parseFloat).0
      ensures error == ToEtc1s(old(State()), parseFloat).1
    {
      ui := ui.(qualityLabel := Etc1sQualityLabel, thresholdLabel := Etc1sThresholdLabel,
                previousUASTCQuality := ui.qualityInput, previousUASTCThreshold := ui.thresholdInput,
                qualityInput := ui.previousETC1SQuality);
      var q := ParseInt32(ui.previousETC1SQuality);
      if q.Failure? {
        return Some(q.error);
      }
      io := io.(quality := q.value);
      ui := ui.(thresholdInput := ui.previousETC1SThreshold);
      var t := parseFloat(ui.previousETC1SThreshold);
      if t.Failure? {
        return Some(t.error);
      }
      io := io.(threshold := t.value);
      ui := ui.(qualityLimiter := 255, thresholdLowerLimiter := 1.0, thresholdUpperLimiter := 2.0,
                previousSubFormat := io.subFormat);
      error := None;
    }

    method SetUseExistingBasis(use: bool)
      modifies this
      ensures io == old(io).(useExistingBasis := use) && ui == old(ui)
    {
      io := io.(useExistingBasis := use);
    }

    method SetPreview(use: bool)
      modifies this
      ensures io == old(io).(showPreview := use) && ui == old(ui)
    {
      io := io.(showPreview := use);
    }

    method SetUseMultithreading(use: bool)
      modifies this
      ensures io == old(io).(useMultithreading := use) && ui == old(ui)
    {
      io := io.(useMultithreading := use);
    }

    method SetPreserveAlpha(use: bool)
      modifies this
      ensures io == old(io).(preserveAlpha := use) && ui == old(ui)
    {
      io := io.(preserveAlpha := use);
    }

    method SetConvertLightmaps(use: bool)
      modifies this
      ensures io == old(io).(convertLightmaps := use) && ui == old(ui)
    {
      io := io.(convertLightmaps := use);
    }

    /** SetTextureToggle(t): below the array's length, toggle `t` is flipped and
        every list entry of map type `t` takes its new value; from the length
        on nothing happens; a negative `t` is out of the array's range. */
    method SetTextureToggle(toggle: int, list: TextureList) returns (error: Option<Exception>)
      modifies conversionToggles, list
      ensures toggle < 0 ==> error == Some(IndexOutOfRange(toggle))
      ensures 0 <= toggle < conversionToggles.Length ==>
                && error.None?
                && conversionToggles[..] == old(conversionToggles[..])[toggle := !old(conversionToggles[toggle])]
                && list.textureList == Regrouped(old(list.textureList), toggle, conversionToggles[toggle])
      ensures (toggle < 0 || toggle >= conversionToggles.Length) ==>
                && (toggle >= 0 ==> error.None?)
                && conversionToggles[..] == old(conversionToggles[..])
                && list.textureList == old(list.textureList)
    {
      if toggle < conversionToggles.Length {
        if toggle < 0 {
          return Some(IndexOutOfRange(toggle));
        }
        conversionToggles[toggle] := !conversionToggles[toggle];
        var v := conversionToggles[toggle];
        ghost var flipped := conversionToggles[..];
        var i := 0;
        while i < |list.textureList|
          invariant conversionToggles[..] == flipped
          invariant i <= |list.textureList| == |old(list.textureList)|
          invariant forall k :: 0 <= k < |list.textureList| ==>
                      list.textureList[k] == if k < i then Regrouped(old(list.textureList), toggle, v)[k]
                                             else old(list.textureList)[k]
        {
          if Ordinal(list.textureList[i].mapType) == toggle {
            list.textureList := list.textureList[i := list.textureList[i].(toggled := v)];
          }
          i := i + 1;
        }
        assert list.textureList == Regrouped(old(list.textureList), toggle, v);
      }
      error := None;
    }

    method SetQuality(quality: string)
      modifies this
      ensures State() == WithQuality(old(State()), quality)
    {
      var q := ParseInt32(quality);
      if q.Failure? {
        return;
      }
      var v := q.value;
      var max := if io.subFormat == UASTC then 4 else 255;
      if v > max {
        v := max;
      } else if v < 0 {
        v := 0;
      }
      ui := ui.(qualityInput := IntToString(v));
      io := io.(quality := v);
    }

    method SetCompLevel(level: string)
      modifies this
      ensures State() == WithLevel(old(State()), level)
    {
      var l := ParseInt32(level);
      if l.Failure? {
        return;
      }
      var v := l.value;
      if v > 5 {
        v := 5;
      } else if v < 1 {
        v := 1;
      }
      ui := ui.(levelInput := IntToString(v));
      io := io.(level := v);
    }
  }
}
