/** The compressor's quality presets: each named preset gives a target
    resolution and a JPEG quality, and a mobile client never renders above
    144 dpi. JPEG quality is kept in integer hundredths (0.6 is 60). */
module Presets {

  datatype Setting = Setting(dpi: nat, quality: nat)

  /** The device cap and the setting that replaces anything above it. */
  const MobileMaxDpi: nat := 144
  const Fallback: Setting := Setting(144, 60)

  /** The preset names the selector offers. */
  const Named: set<string> := {"mobile", "pc", "pc-hi", "print", "min"}

  /** The preset table; any other value selects the fallback. */
  function TableSetting(preset: string): (s: Setting)
    ensures preset !in Named ==> s == Fallback
    ensures 72 <= s.dpi <= 300 && 40 <= s.quality <= 80
  {
    match preset
    case "mobile" => Setting(96, 50)
    case "pc" => Setting(144, 60)
    case "pc-hi" => Setting(300, 80)
    case "print" => Setting(200, 80)
    case "min" => Setting(72, 40)
    case _ => Fallback
  }

  /** The mobile override: a setting above the cap becomes the fallback. */
  function Cap(s: Setting, isMobile: bool): (r: Setting)
    ensures !isMobile ==> r == s
    ensures isMobile ==> r.dpi <= MobileMaxDpi
    ensures r.dpi <= s.dpi
    ensures s.dpi <= MobileMaxDpi ==> r == s
  {
    if isMobile && s.dpi > MobileMaxDpi then Fallback else s
  }

  /** The setting the compressor renders with (`getPresetSettings`). */
  function EffectiveSetting(preset: string, isMobile: bool): (s: Setting)
    ensures isMobile ==> s.dpi <= MobileMaxDpi
    ensures !isMobile ==> s == TableSetting(preset)
  {
    Cap(TableSetting(preset), isMobile)
  }

  /** On a mobile client, presets at or below the cap pass through and
      presets above it become exactly the fallback. */
  lemma MobileOverride(preset: string)
    ensures TableSetting(preset).dpi <= MobileMaxDpi ==> EffectiveSetting(preset, true) == TableSetting(preset)
    ensures TableSetting(preset).dpi > MobileMaxDpi <==> EffectiveSetting(preset, true) == Fallback && preset in {"pc-hi", "print"}
  {
  }

  /** Every effective setting, mobile or not, is an entry of the table, and
      the override lands on the `pc` entry. */
  lemma EffectiveIsTableEntry(preset: string, isMobile: bool)
    ensures exists p :: p in Named && EffectiveSetting(preset, isMobile) == TableSetting(p)
  {
  }

  /** The render scale `dpi / 72` (pixels per PDF point). */
  function Scale(s: Setting): real {
    s.dpi as real / 72.0
  }

  /** The page is never rendered below its point size, at most at 300 dpi,
      and on a mobile client at most at twice its point size. */
  lemma ScaleBounds(preset: string, isMobile: bool)
    ensures 1.0 <= Scale(EffectiveSetting(preset, isMobile)) <= 300.0 / 72.0
    ensures isMobile ==> Scale(EffectiveSetting(preset, isMobile)) <= 2.0
  {
  }
}
