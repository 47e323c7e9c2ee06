/** The dashboard's configuration lookups (examples/nodejs/public/js/config.js):
    the complexity classifier over COMPLEXITY_LEVELS and the case-insensitive
    language lookup over LANGUAGE_CONFIG with its fallback entry. */
module DashboardConfig {
  import opened Wrappers
  import opened JsObjects

  // ---------------------------------------------------------------------
  // COMPLEXITY_LEVELS and getComplexityLevel

  /** A level's upper bound; CRITICAL's is Infinity. */
  datatype Bound = Finite(n: int) | Infinity

  datatype ComplexityLevel = Low | Medium | High | Critical

  /** A COMPLEXITY_LEVELS entry; `labelText` is its `label` field. */
  datatype LevelInfo = LevelInfo(max: Bound, color: string, labelText: string)

  /** The entry of each level in COMPLEXITY_LEVELS: only CRITICAL is unbounded,
      and every label and colour is set. */
  function Info(level: ComplexityLevel): (info: LevelInfo)
    ensures info.max.Infinity? <==> level == Critical
    ensures info.labelText != "" && info.color != ""
  {
    match level
    case Low => LevelInfo(Finite(3), "#28a745", "Rendah")
    case Medium => LevelInfo(Finite(7), "#ffc107", "Sedang")
    case High => LevelInfo(Finite(10), "#fd7e14", "Tinggi")
    case Critical => LevelInfo(Infinity, "#dc3545", "Kritis")
  }

  /** Position in the table: LOW, MEDIUM, HIGH, CRITICAL. */
  function Rank(level: ComplexityLevel): nat {
    match level
    case Low => 0
    case Medium => 1
    case High => 2
    case Critical => 3
  }

  /** `score <= max`, where nothing exceeds Infinity. */
  predicate Admits(max: Bound, score: int) {
    max.Infinity? || score <= max.n
  }

  /** getComplexityLevel: the first level in table order whose max admits the
      score; the chain of guarded returns ends in CRITICAL. */
  function GetComplexityLevel(score: int): (level: ComplexityLevel)
    ensures Admits(Info(level).max, score)
    ensures forall earlier: ComplexityLevel :: Rank(earlier) < Rank(level) ==> !Admits(Info(earlier).max, score)
  {
    if score <= Info(Low).max.n then Low
    else if score <= Info(Medium).max.n then Medium
    else if score <= Info(High).max.n then High
    else Critical
  }

  /** The thresholds: LOW up to 3, MEDIUM up to 7, HIGH up to 10, CRITICAL above. */
  lemma ComplexityThresholds(score: int)
    ensures GetComplexityLevel(score) == Low <==> score <= 3
    ensures GetComplexityLevel(score) == Medium <==> 3 < score <= 7
    ensures GetComplexityLevel(score) == High <==> 7 < score <= 10
    ensures GetComplexityLevel(score) == Critical <==> 10 < score
  {
  }

  /** The bounds rise strictly in table order, so the chain of guards can test them
      one after another. */
  lemma LevelBoundsAscend(a: ComplexityLevel, b: ComplexityLevel)
    requires Rank(a) < Rank(b)
    ensures Info(a).max.Finite?
    ensures Info(b).max.Infinity? || Info(a).max.n < Info(b).max.n
  {
  }

  /** A higher score never gets a lower level. */
  lemma ComplexityMonotone(s1: int, s2: int)
    requires s1 <= s2
    ensures Rank(GetComplexityLevel(s1)) <= Rank(GetComplexityLevel(s2))
  {
    var l1, l2 := GetComplexityLevel(s1), GetComplexityLevel(s2);
    if Rank(l2) < Rank(l1) {
      assert Admits(Info(l2).max, s2);
    }
  }

  // ---------------------------------------------------------------------
  // LANGUAGE_CONFIG and getLanguageConfig

  datatype LanguageConfig = LanguageConfig(icon: string, color: string, displayName: string)

  /** LANGUAGE_CONFIG, keyed by lower-case language name. */
  const LanguageTable: map<string, LanguageConfig> := map[
    "php" := LanguageConfig("\U{1F418}", "#777bb4", "PHP"),
    "javascript" := LanguageConfig("\U{26A1}", "#f7df1e", "JavaScript"),
    "python" := LanguageConfig("\U{1F40D}", "#3776ab", "Python"),
    "java" := LanguageConfig("\U{2615}", "#ed8b00", "Java"),
    "typescript" := LanguageConfig("\U{1F4D8}", "#3178c6", "TypeScript")
  ]

  const FallbackIcon: string := "\U{1F4C4}"
  const FallbackColor: string := "#6c757d"

  /** The entry for an unknown language: the input as given, or 'Unknown' when it
      is null, undefined or empty (the falsy strings). */
  function Fallback(language: Option<string>): (c: LanguageConfig)
    ensures c.icon == FallbackIcon && c.color == FallbackColor
    ensures c.displayName == "Unknown" <==> language.None? || language.value == "" || language.value == "Unknown"
    ensures language.Some? && language.value != "" ==> c.displayName == language.value
  {
    LanguageConfig(FallbackIcon, FallbackColor, if language.None? || language.value == "" then "Unknown" else language.value)
  }

  /** The key `language?.toLowerCase()` looks up; null or undefined has none. */
  function LookupKey(language: Option<string>): (key: Option<string>)
    ensures key.None? <==> language.None?
    ensures key.Some? ==> IsLowerCase(key.value) && IsCasingOf(language.value, key.value)
  {
    if language.None? then None else Some(ToLowerCase(language.value))
  }

  /** getLanguageConfig, reading only the table's own entries. */
  function GetLanguageConfig(language: Option<string>): (c: LanguageConfig)
    ensures c in LanguageTable.Values || c == Fallback(language)
    ensures c.displayName != ""
    ensures language.Some? && ToLowerCase(language.value) in LanguageTable ==>
      c == LanguageTable[ToLowerCase(language.value)]
    ensures language.Some? && language.value != "" && ToLowerCase(language.value) !in LanguageTable ==>
      c.icon == FallbackIcon && c.color == FallbackColor && c.displayName == language.value
  {
    var key := LookupKey(language);
    if key.Some? && key.value in LanguageTable then LanguageTable[key.value] else Fallback(language)
  }

  /** Every casing of a table key yields that key's entry, so `displayName` comes
      from the table and not from the input. */
  lemma LanguageCaseInsensitive(s: string, key: string)
    requires key in LanguageTable && IsCasingOf(s, key)
    ensures GetLanguageConfig(Some(s)) == LanguageTable[key]
  {
    assert IsLowerCase(key);
    LowerCasing(s, key);
  }

  lemma PhpDisplayName()
    ensures GetLanguageConfig(Some("PHP")).displayName == "PHP"
    ensures GetLanguageConfig(Some("php")).displayName == "PHP"
    ensures GetLanguageConfig(Some("TypeScript")).displayName == "TypeScript"
  {
    assert GetLanguageConfig(Some("PHP")).displayName == "PHP" by {
      assert IsCasingOf("PHP", "php");
      LanguageCaseInsensitive("PHP", "php");
    }
    assert GetLanguageConfig(Some("php")).displayName == "PHP" by {
      assert IsCasingOf("php", "php");
      LanguageCaseInsensitive("php", "php");
    }
    TypeScriptCasing();
    LanguageCaseInsensitive("TypeScript", "typescript");
  }

  /** "TypeScript" is a casing of the table key "typescript". */
  lemma TypeScriptCasing()
    ensures IsCasingOf("TypeScript", "typescript")
  {
  }

  /** A table entry is returned exactly when the lower-cased input is a key; the
      fallback's icon appears in no entry, so the two cases never mix. */
  lemma LanguageKnownIff(language: Option<string>)
    ensures GetLanguageConfig(language) in LanguageTable.Values <==>
      language.Some? && ToLowerCase(language.value) in LanguageTable
  {
    var c := GetLanguageConfig(language);
    if !(language.Some? && ToLowerCase(language.value) in LanguageTable) {
      assert c == Fallback(language);
      assert c.icon == FallbackIcon;
      forall e | e in LanguageTable.Values
        ensures e.icon != FallbackIcon
      {
      }
    }
  }

  // ---------------------------------------------------------------------
  // The lookup as written

  /** What getLanguageConfig returns as written: an entry, or, when the lower-cased
      input names an inherited member, that member (every one is truthy, so the
      `||` fallback is not taken). */
  datatype ConfigResult = Entry(config: LanguageConfig) | PrototypeValue(member: string)

  /** `LANGUAGE_CONFIG[language?.toLowerCase()] || {...}`, with inherited members. */
  function GetLanguageConfigAsWritten(language: Option<string>): (r: ConfigResult)
    ensures r.Entry? ==> r.config == GetLanguageConfig(language)
    ensures r.PrototypeValue? <==>
      language.Some? && ToLowerCase(language.value) !in LanguageTable &&
      ToLowerCase(language.value) in ObjectPrototypeMembers
  {
    var key := LookupKey(language);
    if key.None? then Entry(Fallback(language))
    else
      match LookupProperty(LanguageTable, key.value)
      case Own(config) => Entry(config)
      case Inherited(member) => PrototypeValue(member)
      case Undefined => Entry(Fallback(language))
  }

  /** "Constructor" lower-cases to an inherited member: the written lookup returns
      the Object constructor instead of the fallback entry ... */
  lemma ConstructorLanguageCounterexample()
    ensures GetLanguageConfigAsWritten(Some("Constructor")) == PrototypeValue("constructor")
  {
    ConstructorKey();
  }

  /** ... which is what the own-property lookup returns. */
  lemma ConstructorLanguageCorrected()
    ensures GetLanguageConfig(Some("Constructor")) == LanguageConfig(FallbackIcon, FallbackColor, "Constructor")
  {
    ConstructorLowered();
    ConstructorNotLanguage();
  }

  lemma ConstructorKey()
    ensures ToLowerCase("Constructor") == "constructor"
    ensures "constructor" !in LanguageTable && "constructor" in ObjectPrototypeMembers
  {
    ConstructorLowered();
    ConstructorNotLanguage();
  }

  lemma ConstructorLowered()
    ensures ToLowerCase("Constructor") == "constructor"
    ensures LookupKey(Some("Constructor")) == Some("constructor")
  {
    var rest := "onstructor";
    assert "Constructor"[0] == 'C' && "Constructor"[1..] == rest;
    assert "constructor" == ['c'] + rest;
    LowerCaseFixed(rest);
  }

  lemma ConstructorNotLanguage()
    ensures "constructor" !in LanguageTable
  {
  }
}
