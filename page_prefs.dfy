/**
 * The per-hymn reading preferences of the hymn page (app/static/site.js:72-135):
 * which transcript languages are shown, and the transcript font size, both
 * kept in the browser's localStorage under keys built from the hymn's key.
 *
 * localStorage is a map from key to stored value. The font size is stored
 * as text; the language choices are stored as a JSON object, which the
 * model keeps decoded (None stands for text JSON.parse rejects).
 */
module PagePrefs {
  import opened Wrappers
  import opened Text

  // ===== font size =====

  const MinFont := 12
  const MaxFont := 32
  const DefaultFont := 18

  /** `Math.max(12, Math.min(32, px))`. */
  function ClampFont(px: int): (r: int)
    ensures MinFont <= r <= MaxFont
    ensures MinFont <= px <= MaxFont ==> r == px
    ensures px < MinFont ==> r == MinFont
    ensures px > MaxFont ==> r == MaxFont
  {
    if px < MinFont then MinFont else if px > MaxFont then MaxFont else px
  }

  /** Clamping twice is clamping once. */
  lemma ClampIdempotent(px: int)
    ensures ClampFont(ClampFont(px)) == ClampFont(px)
  {
  }

  lemma ParseEighteen()
    ensures JsParseInt("18") == Some(18)
  {
    var s := "18";
    assert s[0] == '1' && s[1] == '8' && |s| == 2;
    TrimStartNoSpace(s);
    assert AllDigits(s);
    DigitPrefixAllDigits(s);
    assert s[..1] == "1" && "1"[..0] == "";
    assert DigitsValue("1") == 1;
    assert DigitsValue(s) == 18;
  }

  /** The size `loadFont` applies: `parseInt(stored || "18", 10)`, or 18 when that is NaN. */
  function StoredFont(stored: Option<string>): (px: int)
    ensures stored.Some? && JsParseInt(stored.value).Some? ==> px == JsParseInt(stored.value).value
    ensures stored.None? || JsParseInt(stored.value).None? ==> px == DefaultFont
  {
    var text := match stored
      case None => "18"
      case Some(s) => if s == "" then "18" else s;
    ParseEighteen();
    match JsParseInt(text)
    case None => DefaultFont
    case Some(v) => v
  }

  // ===== language choices =====

  /** A JSON value as JSON.parse produces it; arrays and objects are all truthy. */
  datatype Json = JBool(b: bool) | JNum(n: int) | JStr(s: string) | JNull | JComposite

  /** JavaScript's `!!v`. */
  predicate JsTruthy(v: Json) {
    match v
    case JBool(b) => b
    case JNum(n) => n != 0
    case JStr(s) => s != ""
    case JNull => false
    case JComposite => true
  }

  /** A language toggle: its code and its `data-default` attribute. */
  datatype Toggle = Toggle(code: string, defaultAttr: string)

  /** `t.dataset.default === "1"`. */
  predicate DefaultOn(t: Toggle) {
    t.defaultAttr == "1"
  }

  /** The object `loadLangPrefs` reads from the store: the stored one, or {} when there is none or it does not parse. */
  function PrefsOf(store: map<string, Option<map<string, Json>>>, key: string): (prefs: map<string, Json>)
    ensures key in store && store[key].Some? ==> prefs == store[key].value
    ensures key !in store || store[key].None? ==> prefs == map[]
  {
    if key in store && store[key].Some? then store[key].value else map[]
  }

  /** Whether the toggle is on: the stored choice for its code when there is one, its default otherwise. */
  function LangOn(prefs: map<string, Json>, t: Toggle): (on: bool)
    ensures t.code in prefs ==> (on <==> JsTruthy(prefs[t.code]))
    ensures t.code !in prefs ==> (on <==> DefaultOn(t))
  {
    if t.code in prefs then JsTruthy(prefs[t.code]) else DefaultOn(t)
  }

  /** The object `saveLangPrefs` builds: each toggle's code to its state, a later toggle overriding an earlier one with the same code. */
  function SavedPrefs(toggles: seq<Toggle>, checked: seq<bool>): (prefs: map<string, Json>)
    requires |toggles| == |checked|
    ensures forall j :: 0 <= j < |toggles| ==> toggles[j].code in prefs
    ensures forall c :: c in prefs ==> prefs[c].JBool?
    decreases |toggles|
  {
    if toggles == [] then map[]
    else
      var n := |toggles| - 1;
      var before := SavedPrefs(toggles[..n], checked[..n]);
      assert forall j :: 0 <= j < n ==> toggles[..n][j] == toggles[j];
      before[toggles[n].code := JBool(checked[n])]
  }

  /** The saved object holds exactly the toggles' codes, each with the state of the last toggle of that code. */
  lemma {:induction false} SavedPrefsLast(toggles: seq<Toggle>, checked: seq<bool>, i: nat)
    requires |toggles| == |checked| && i < |toggles|
    requires forall j :: i < j < |toggles| ==> toggles[j].code != toggles[i].code
    ensures toggles[i].code in SavedPrefs(toggles, checked)
    ensures SavedPrefs(toggles, checked)[toggles[i].code] == JBool(checked[i])
    decreases |toggles|
  {
    var n := |toggles| - 1;
    if i < n {
      SavedPrefsLast(toggles[..n], checked[..n], i);
    }
  }

  /** The saved object has a key for each toggle's code and no other. */
  lemma {:induction false} SavedPrefsKeys(toggles: seq<Toggle>, checked: seq<bool>)
    requires |toggles| == |checked|
    ensures SavedPrefs(toggles, checked).Keys == set j | 0 <= j < |toggles| :: toggles[j].code
    decreases |toggles|
  {
    if toggles != [] {
      var n := |toggles| - 1;
      SavedPrefsKeys(toggles[..n], checked[..n]);
      assert SavedPrefs(toggles, checked).Keys == SavedPrefs(toggles[..n], checked[..n]).Keys + {toggles[n].code};
      assert (set j | 0 <= j < |toggles| :: toggles[j].code)
          == (set j | 0 <= j < n :: toggles[..n][j].code) + {toggles[n].code};
    }
  }

  /**
   * Saving and then loading restores every toggle whose code no later
   * toggle shares: a reload shows the languages as they were left.
   */
  lemma LoadAfterSave(store: map<string, Option<map<string, Json>>>, key: string,
                       toggles: seq<Toggle>, checked: seq<bool>, i: nat)
    requires |toggles| == |checked| && i < |toggles|
    requires forall j :: i < j < |toggles| ==> toggles[j].code != toggles[i].code
    ensures LangOn(PrefsOf(store[key := Some(SavedPrefs(toggles, checked))], key), toggles[i]) == checked[i]
  {
    SavedPrefsLast(toggles, checked, i);
  }

  /** Visibility after the toggles set their codes in order: `setLangVisible(code, on)` hides every element of that code when off. */
  function ShowLangs(hidden: map<string, bool>, toggles: seq<Toggle>, on: seq<bool>): (r: map<string, bool>)
    requires |toggles| == |on|
    ensures forall c :: c in hidden ==> c in r
    ensures forall j :: 0 <= j < |toggles| ==> toggles[j].code in r
    decreases |toggles|
  {
    if toggles == [] then hidden
    else
      var n := |toggles| - 1;
      var before := ShowLangs(hidden, toggles[..n], on[..n]);
      assert forall j :: 0 <= j < n ==> toggles[..n][j] == toggles[j];
      before[toggles[n].code := !on[n]]
  }

  /** One more toggle sets its own code over what the toggles before it left. */
  lemma ShowLangsSnoc(hidden: map<string, bool>, toggles: seq<Toggle>, on: seq<bool>, i: nat)
    requires i < |toggles| == |on|
    ensures ShowLangs(hidden, toggles[..i + 1], on[..i + 1])
         == ShowLangs(hidden, toggles[..i], on[..i])[toggles[i].code := !on[i]]
  {
    assert toggles[..i + 1][..i] == toggles[..i];
    assert on[..i + 1][..i] == on[..i];
  }

  /** A code no toggle carries keeps its visibility. */
  lemma {:induction false} ShowLangsOther(hidden: map<string, bool>, toggles: seq<Toggle>, on: seq<bool>, c: string)
    requires |toggles| == |on|
    requires forall j :: 0 <= j < |toggles| ==> toggles[j].code != c
    ensures c in ShowLangs(hidden, toggles, on) <==> c in hidden
    ensures c in hidden ==> ShowLangs(hidden, toggles, on)[c] == hidden[c]
    decreases |toggles|
  {
    if toggles != [] {
      var n := |toggles| - 1;
      assert forall j :: 0 <= j < n ==> toggles[..n][j] == toggles[j];
      ShowLangsOther(hidden, toggles[..n], on[..n], c);
    }
  }

  /** A toggle whose code no later toggle shares decides whether that language is shown. */
  lemma {:induction false} ShowLangsLast(hidden: map<string, bool>, toggles: seq<Toggle>, on: seq<bool>, i: nat)
    requires |toggles| == |on| && i < |toggles|
    requires forall j :: i < j < |toggles| ==> toggles[j].code != toggles[i].code
    ensures toggles[i].code in ShowLangs(hidden, toggles, on)
    ensures ShowLangs(hidden, toggles, on)[toggles[i].code] == !on[i]
    decreases |toggles|
  {
    var n := |toggles| - 1;
    var before := ShowLangs(hidden, toggles[..n], on[..n]);
    assert ShowLangs(hidden, toggles, on) == before[toggles[n].code := !on[n]];
    if i < n {
      ShowLangsLast(hidden, toggles[..n], on[..n], i);
      assert toggles[..n][i] == toggles[i] && on[..n][i] == on[i];
    }
  }

  /**
   * The preference state of one hymn page: localStorage (font sizes as
   * text, language choices as decoded objects), the applied font size, and
   * for the language toggles their checkboxes, their "off" classes and the
   * visibility of each language's elements.
   */
  class Page {
    const fontKey: string
    const langKey: string
    const toggles: seq<Toggle>
    var textStore: map<string, string>
    var prefsStore: map<string, Option<map<string, Json>>>
    var fontPx: int
    var checked: seq<bool>
    var off: seq<bool>
    var hidden: map<string, bool>

    ghost predicate Valid()
      reads this
    {
      |checked| == |off| == |toggles|
    }

    /** The page of the hymn with the given key, over the stored preferences. */
    constructor(hymnKey: string, toggles: seq<Toggle>, textStore: map<string, string>,
                prefsStore: map<string, Option<map<string, Json>>>)
      ensures Valid()
      ensures fontKey == "font:" + hymnKey && langKey == "langs:" + hymnKey
      ensures this.toggles == toggles && this.textStore == textStore && this.prefsStore == prefsStore
    {
      fontKey := "font:" + hymnKey;
      langKey := "langs:" + hymnKey;
      this.toggles := toggles;
      this.textStore := textStore;
      this.prefsStore := prefsStore;
      fontPx := DefaultFont;
      checked := seq(|toggles|, i => false);
      off := seq(|toggles|, i => false);
      hidden := map[];
    }

    /** `setFont(px)`: applies the clamped size and stores it as text. */
    method SetFont(px: int)
      modifies this
      ensures fontPx == ClampFont(px)
      ensures textStore == old(textStore)[fontKey := IntToDecimal(ClampFont(px))]
      ensures prefsStore == old(prefsStore) && checked == old(checked) && off == old(off) && hidden == old(hidden)
    {
      var clamped := if px > MaxFont then MaxFont else px;
      clamped := if clamped < MinFont then MinFont else clamped;
      fontPx := clamped;
      textStore := textStore[fontKey := IntToDecimal(clamped)];
    }

    /** `loadFont()`: applies the stored size, 18 when none can be read. */
    method LoadFont()
      modifies this
      ensures fontPx == ClampFont(StoredFont(if fontKey in old(textStore) then Some(old(textStore)[fontKey]) else None))
      ensures textStore == old(textStore)[fontKey := IntToDecimal(fontPx)]
      ensures prefsStore == old(prefsStore) && checked == old(checked) && off == old(off) && hidden == old(hidden)
    {
      var stored := if fontKey in textStore then textStore[fontKey] else "";
      var text := if stored == "" then "18" else stored;
      var v := JsParseInt(text);
      SetFont(if v.None? then DefaultFont else v.value);
    }

    /** `loadLangPrefs()`: every toggle shows the stored choice for its code, or its default. */
    method LoadLangPrefs()
      requires Valid()
      modifies this
      ensures Valid()
      ensures forall i :: 0 <= i < |toggles| ==> checked[i] == LangOn(PrefsOf(prefsStore, langKey), toggles[i])
      ensures forall i :: 0 <= i < |toggles| ==> off[i] == !checked[i]
      ensures hidden == ShowLangs(old(hidden), toggles, checked)
      ensures textStore == old(textStore) && prefsStore == old(prefsStore) && fontPx == old(fontPx)
    {
      var prefs := if langKey in prefsStore && prefsStore[langKey].Some? then prefsStore[langKey].value else map[];
      assert prefs == PrefsOf(prefsStore, langKey);
      var ch, of, hd := checked, off, hidden;
      var i := 0;
      while i < |toggles|
        invariant 0 <= i <= |toggles| && |ch| == |of| == |toggles|
        invariant forall k :: 0 <= k < i ==> ch[k] == LangOn(prefs, toggles[k])
        invariant forall k :: 0 <= k < i ==> of[k] == !ch[k]
        invariant hd == ShowLangs(hidden, toggles[..i], ch[..i])
        modifies {}
      {
        var t := toggles[i];
        var on := if t.code in prefs then JsTruthy(prefs[t.code]) else t.defaultAttr == "1";
        assert on == LangOn(prefs, t);
        ghost var before := ch;
        ch := ch[i := on];
        of := of[i := !on];
        hd := hd[t.code := !on];
        assert ch[..i] == before[..i];
        ShowLangsSnoc(hidden, toggles, ch, i);
        i := i + 1;
      }
      assert toggles[..i] == toggles && ch[..i] == ch;
      checked, off, hidden := ch, of, hd;
    }

    /** `saveLangPrefs()`: stores each toggle's code with its checkbox state. */
    method SaveLangPrefs()
      requires Valid()
      modifies this
      ensures Valid()
      ensures prefsStore == old(prefsStore)[langKey := Some(SavedPrefs(toggles, checked))]
      ensures textStore == old(textStore) && fontPx == old(fontPx)
      ensures checked == old(checked) && off == old(off) && hidden == old(hidden)
    {
      var prefs: map<string, Json> := map[];
      var i := 0;
      while i < |toggles|
        invariant 0 <= i <= |toggles|
        invariant prefs == SavedPrefs(toggles[..i], checked[..i])
      {
        assert toggles[..i + 1][..i] == toggles[..i];
        assert checked[..i + 1][..i] == checked[..i];
        prefs := prefs[toggles[i].code := JBool(checked[i])];
        i := i + 1;
      }
      assert toggles[..i] == toggles && checked[..i] == checked;
      prefsStore := prefsStore[langKey := Some(prefs)];
    }

    /**
     * A click on toggle i, once the browser has set its checkbox to `on`:
     * the deferred handler marks the toggle, shows or hides the language,
     * and saves every toggle's state.
     */
    method OnToggleClick(i: int, on: bool)
      requires Valid() && 0 <= i < |toggles|
      modifies this
      ensures Valid()
      ensures checked == old(checked)[i := on] && off == old(off)[i := !on]
      ensures hidden == old(hidden)[toggles[i].code := !on]
      ensures prefsStore == old(prefsStore)[langKey := Some(SavedPrefs(toggles, checked))]
      ensures textStore == old(textStore) && fontPx == old(fontPx)
    {
      checked := checked[i := on];
      off := off[i := !on];
      hidden := hidden[toggles[i].code := !on];
      SaveLangPrefs();
    }
  }

  /** What setFont stores, loadFont reads back: a reload keeps the size. */
  lemma LoadFontAfterSetFont(px: int)
    ensures ClampFont(StoredFont(Some(IntToDecimal(ClampFont(px))))) == ClampFont(px)
  {
    JsParseIntRoundTrip(ClampFont(px));
  }

  /** With nothing stored, or nothing readable, loadFont applies 18. */
  lemma LoadFontDefault(stored: Option<string>)
    requires stored.None? || JsParseInt(stored.value).None?
    ensures ClampFont(StoredFont(stored)) == DefaultFont
  {
  }
}
