/**
 * The plugin's smaller pieces around the chat protocol: the "Add Separator"
 * editor command, the timestamped name of a recording, and the settings
 * loaded over their defaults.
 */
module Plugin {
  import opened Wrappers
  import opened Text
  import opened Json
  import opened Chat

  // ---------------------------------------------------------------------
  // "Add Separator"
  // ---------------------------------------------------------------------

  /** `editor.replaceSelection` with the separator on a line of its own; the selection is `doc[from..to]`. */
  function AddSeparator(doc: string, from: nat, to: nat): string
    requires from <= to <= |doc|
  {
    doc[..from] + "\n" + Sep + "\n" + doc[to..]
  }

  /**
   * The command starts a new turn where the selection was: the turns are
   * those of the text before it (with the new line), then those of the text
   * after it, and the selected text is gone.
   */
  lemma AddSeparatorTurns(doc: string, from: nat, to: nat)
    requires from <= to <= |doc|
    ensures Turns(AddSeparator(doc, from, to)) == Turns(doc[..from] + "\n") + Turns("\n" + doc[to..])
    ensures Join(Turns(AddSeparator(doc, from, to)), Sep) == AddSeparator(doc, from, to)
    ensures |Turns(AddSeparator(doc, from, to))| ==
            Count(doc[..from] + "\n", Sep) + Count("\n" + doc[to..], Sep) + 2
  {
    var a := doc[..from] + "\n";
    var b := "\n" + doc[to..];
    assert AddSeparator(doc, from, to) == a + Sep + b;
    SepNoStraddle(a);
    SplitConcat(a, b, Sep);
    Segmentation(AddSeparator(doc, from, to));
    Segmentation(a);
    Segmentation(b);
  }

  // ---------------------------------------------------------------------
  // The recording's file name
  // ---------------------------------------------------------------------

  /** `timestamp.replace(/[:.]/g, "-")`: every colon and full stop becomes a hyphen. */
  function Sanitize(timestamp: string): (r: string)
    ensures |r| == |timestamp|
    decreases |timestamp|
  {
    if |timestamp| == 0 then ""
    else (if timestamp[0] in ":." then "-" else [timestamp[0]]) + Sanitize(timestamp[1..])
  }

  /**
   * Each character is kept, except colons and full stops, which become
   * hyphens; so none of those is left, and sanitising again changes nothing.
   */
  lemma {:induction false} SanitizeSpec(timestamp: string)
    ensures forall i :: 0 <= i < |timestamp| ==>
              Sanitize(timestamp)[i] == if timestamp[i] in ":." then '-' else timestamp[i]
    ensures forall i :: 0 <= i < |timestamp| ==> Sanitize(timestamp)[i] !in ":."
    ensures Sanitize(Sanitize(timestamp)) == Sanitize(timestamp)
    decreases |timestamp|
  {
    if |timestamp| > 0 {
      var rest := timestamp[1..];
      SanitizeSpec(rest);
      var r := Sanitize(timestamp);
      assert r[1..] == Sanitize(rest);
      assert r[0] !in ":.";
      assert r[1..] == Sanitize(r)[1..] by {
        assert Sanitize(r)[1..] == Sanitize(r[1..]);
      }
    }
  }

  /** The name the recording is written under: the sanitised timestamp and the extension. */
  function FileName(timestamp: string, extension: string): string {
    Sanitize(timestamp) + "." + extension
  }

  /** The full stop before the extension is the name's only one: the name splits back into its two parts. */
  lemma FileNameParts(timestamp: string, extension: string)
    requires forall i :: 0 <= i < |extension| ==> extension[i] != '.'
    ensures Split(FileName(timestamp, extension), ".") == [Sanitize(timestamp), extension]
  {
    var a := Sanitize(timestamp);
    SanitizeSpec(timestamp);
    SplitConcat(a, extension, ".");
    NoDot(a);
    NoDot(extension);
  }

  /** A text without a full stop is one piece. */
  lemma NoDot(s: string)
    requires forall i :: 0 <= i < |s| ==> s[i] != '.'
    ensures Split(s, ".") == [s]
  {
    forall j: nat
      ensures !OccursAt(s, ".", j)
    {
      if j < |s| {
        assert s[j + 0] != "."[0];
      }
    }
    SplitFree(s, ".");
  }

  // ---------------------------------------------------------------------
  // Settings
  // ---------------------------------------------------------------------

  const DefaultSettings: map<string, Json> := map["apiKey" := JStr("sk-xxx"), "audioPath" := JStr("audio-notes")]

  /**
   * `Object.assign({}, DEFAULT_SETTINGS, await this.loadData())`: the stored
   * settings, when there are any, over the defaults.
   */
  function LoadSettings(stored: Option<map<string, Json>>): map<string, Json> {
    match stored
    case None => DefaultSettings
    case Some(data) => DefaultSettings + data
  }

  /**
   * A stored key wins over its default, a default fills in a key that was not
   * stored, and nothing else appears; with nothing stored, the defaults.
   */
  lemma LoadSettingsSpec(stored: Option<map<string, Json>>)
    ensures var s := LoadSettings(stored);
            && s.Keys == DefaultSettings.Keys + (if stored.Some? then stored.value.Keys else {})
            && (forall k :: stored.Some? && k in stored.value ==> s[k] == stored.value[k])
            && (forall k :: k in DefaultSettings && (stored.None? || k !in stored.value) ==> s[k] == DefaultSettings[k])
  {
  }

  /** Saving what was loaded and loading it again gives the same settings. */
  lemma SaveLoad(stored: Option<map<string, Json>>)
    ensures LoadSettings(Some(LoadSettings(stored))) == LoadSettings(stored)
  {
    var s := LoadSettings(stored);
    assert (DefaultSettings + s).Keys == s.Keys;
  }
}
