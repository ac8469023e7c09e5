/**
 * The numeric part of the configuration window: the three guarded
 * assignments that accept a quote length and a text-area height range
 * typed into integer fields, and the repaint flag the menu raises.
 */
module ConfigurationWindows {

  import opened NodeEditors

  /** A quote length is accepted only above 16. */
  function AcceptQuotas(s: DisplaySettings, check: int): (r: (DisplaySettings, bool)) {
    if check > 16 then (s.(maxQuotasLength := check), true) else (s, false)
  }

  /** A minimum height is first cut down to the maximum, then accepted only above 10. */
  function AcceptMinHeight(s: DisplaySettings, check: int): (r: (DisplaySettings, bool)) {
    var c := if check > s.maxTextAreaHeight then s.maxTextAreaHeight else check;
    if c > 10 then (s.(minTextAreaHeight := c), true) else (s, false)
  }

  /** A maximum height is accepted only above 50 and above the current minimum. */
  function AcceptMaxHeight(s: DisplaySettings, check: int): (r: (DisplaySettings, bool)) {
    if check > 50 && check > s.minTextAreaHeight then (s.(maxTextAreaHeight := check), true) else (s, false)
  }

  /** The "Display" section: the three fields in order, each seeing the previous ones' effect. */
  function DisplaySection(s: DisplaySettings, quotas: int, minHeight: int, maxHeight: int): (DisplaySettings, bool) {
    var (s1, a1) := AcceptQuotas(s, quotas);
    var (s2, a2) := AcceptMinHeight(s1, minHeight);
    var (s3, a3) := AcceptMaxHeight(s2, maxHeight);
    (s3, a1 || a2 || a3)
  }

  /** The settings every accepted edit keeps: the defaults are such settings. */
  predicate SettingsValid(s: DisplaySettings) {
    s.maxQuotasLength > 16 && 10 < s.minTextAreaHeight <= s.maxTextAreaHeight && s.maxTextAreaHeight > 50
  }

  /**
   * Each field takes the entered value exactly when its guard holds and is
   * otherwise unchanged, and no field touches the other two.
   */
  lemma AcceptGuards(s: DisplaySettings, check: int)
    ensures AcceptQuotas(s, check).1 <==> check > 16
    ensures AcceptQuotas(s, check).0 == if check > 16 then s.(maxQuotasLength := check) else s
    ensures var c := if check > s.maxTextAreaHeight then s.maxTextAreaHeight else check;
      (AcceptMinHeight(s, check).1 <==> c > 10) &&
      AcceptMinHeight(s, check).0 == if c > 10 then s.(minTextAreaHeight := c) else s
    ensures AcceptMaxHeight(s, check).1 <==> check > 50 && check > s.minTextAreaHeight
    ensures AcceptMaxHeight(s, check).0 == if check > 50 && check > s.minTextAreaHeight then s.(maxTextAreaHeight := check) else s
  {
  }

  /** Each step keeps the minimum height at most the maximum, whatever is typed. */
  lemma AcceptStepsKeepHeightOrder(s: DisplaySettings, check: int)
    requires s.minTextAreaHeight <= s.maxTextAreaHeight
    ensures AcceptQuotas(s, check).0.minTextAreaHeight <= AcceptQuotas(s, check).0.maxTextAreaHeight
    ensures AcceptMinHeight(s, check).0.minTextAreaHeight <= AcceptMinHeight(s, check).0.maxTextAreaHeight
    ensures AcceptMaxHeight(s, check).0.minTextAreaHeight <= AcceptMaxHeight(s, check).0.maxTextAreaHeight
    ensures AcceptMaxHeight(s, check).1 ==> AcceptMaxHeight(s, check).0.minTextAreaHeight < AcceptMaxHeight(s, check).0.maxTextAreaHeight
  {
  }

  /** The defaults are valid, and the whole section keeps valid settings valid for all inputs. */
  lemma DisplaySectionKeepsValid(s: DisplaySettings, quotas: int, minHeight: int, maxHeight: int)
    requires SettingsValid(s)
    ensures SettingsValid(DefaultSettings)
    ensures SettingsValid(DisplaySection(s, quotas, minHeight, maxHeight).0)
  {
    var s1 := AcceptQuotas(s, quotas).0;
    var s2 := AcceptMinHeight(s1, minHeight).0;
    AcceptStepsKeepHeightOrder(s, quotas);
    AcceptStepsKeepHeightOrder(s1, minHeight);
    AcceptStepsKeepHeightOrder(s2, maxHeight);
  }

  /**
   * Under valid settings the quote limit is at least 3, so the quote
   * truncation never receives a negative cut length.
   */
  lemma ValidSettingsTruncate(s: DisplaySettings, text: string)
    requires SettingsValid(s)
    ensures TruncateQuote(text, s.maxQuotasLength).Ok?
    ensures |TruncateQuote(text, s.maxQuotasLength).value| <= s.maxQuotasLength
  {
    TruncateQuoteShape(text, s.maxQuotasLength);
  }

  class ConfigurationWindow {
    var configData: EditorConfigurationData

    /** `Init`: the window edits the given configuration. */
    constructor (data: EditorConfigurationData)
      ensures configData == data
    {
      configData := data;
    }

    /**
     * `DrawMenu`, with the foldouts' states, the "Restore" button and the
     * three integer fields as inputs. Only the "Display" section changes
     * integer settings; an open "Connections" or "Backgrounds" section and
     * the "Restore" button always ask for a repaint.
     */
    method DrawMenu(display: bool, connections: bool, backgrounds: bool, restore: bool,
                    quotasField: int, minField: int, maxField: int) returns (repaint: bool)
      modifies configData
      ensures display ==>
        configData.Data() == DisplaySection(old(configData.Data()), quotasField, minField, maxField).0
      ensures !display ==> configData.Data() == old(configData.Data())
      ensures repaint == ((display && DisplaySection(old(configData.Data()), quotasField, minField, maxField).1)
                          || connections || backgrounds || restore)
    {
      repaint := false;
      if display {
        var check := quotasField;
        if check > 16 {
          configData.maxQuotasLength := check;
          repaint := true;
        }
        check := minField;
        if check > configData.maxTextAreaHeight {
          check := configData.maxTextAreaHeight;
        }
        if check > 10 {
          configData.minTextAreaHeight := check;
          repaint := true;
        }
        check := maxField;
        if check > 50 && check > configData.minTextAreaHeight {
          configData.maxTextAreaHeight := check;
          repaint := true;
        }
      }
      if connections {
        repaint := true;
      }
      if backgrounds {
        repaint := true;
      }
      if restore {
        repaint := true;
      }
    }
  }
}
