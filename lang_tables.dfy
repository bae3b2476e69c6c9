/** The three language-name lookups of the translation providers
    (internal/translate/deepl_langs.go, google_langs.go, openai_langs.go):
    each lower-cases the name, then looks it up in a fixed table. */
module LangTables {
  import opened Text
  import opened Wrappers
  import opened Lang

  const DeeplCodes: map<string, string> := map[
    "english" := "EN", "czech" := "CS", "german" := "DE", "polish" := "PL",
    "hungarian" := "HU", "italian" := "IT", "spanish" := "ES", "french" := "FR",
    "japanese" := "JA", "portuguese" := "PT", "russian" := "RU", "chinese" := "ZH",
    "chinesesimp" := "ZH"
  ]

  const GoogleCodes: map<string, string> := map[
    "english" := "en", "czech" := "cs", "german" := "de", "polish" := "pl",
    "hungarian" := "hu", "italian" := "it", "spanish" := "es", "french" := "fr",
    "japanese" := "ja", "portuguese" := "pt", "russian" := "ru", "chinese" := "zh",
    "chinesesimp" := "zh-CN"
  ]

  const OpenAINames: map<string, string> := map[
    "english" := "English", "czech" := "Czech", "german" := "German",
    "polish" := "Polish", "hungarian" := "Hungarian", "italian" := "Italian",
    "spanish" := "Spanish", "french" := "French", "japanese" := "Japanese",
    "portuguese" := "Portuguese", "russian" := "Russian", "chinese" := "Chinese",
    "chinesesimp" := "Simplified Chinese"
  ]

  /** DeeplTargetLang: the DeepL code, or an error naming the language as
      given. */
  function DeeplTargetLang(lang: string): (r: Result<string, string>)
    ensures r.Ok? <==> ToLower(lang) in DeeplCodes
    ensures r.Ok? ==> r.value == DeeplCodes[ToLower(lang)] && r.value != ""
  {
    var key := ToLower(lang);
    if key in DeeplCodes then Ok(DeeplCodes[key])
    else Err("unsupported language for deepl: " + lang)
  }

  /** GoogleTargetLang: the Google code, or the name itself, with its case,
      when the table does not know it. */
  function GoogleTargetLang(lang: string): (r: string)
    ensures ToLower(lang) in GoogleCodes ==> r == GoogleCodes[ToLower(lang)]
    ensures ToLower(lang) !in GoogleCodes ==> r == lang
  {
    var key := ToLower(lang);
    if key in GoogleCodes then GoogleCodes[key] else lang
  }

  /** OpenAITargetLang: the English display name, or the name itself. */
  function OpenAITargetLang(lang: string): (r: string)
    ensures ToLower(lang) in OpenAINames ==> r == OpenAINames[ToLower(lang)]
    ensures ToLower(lang) !in OpenAINames ==> r == lang
  {
    var key := ToLower(lang);
    if key in OpenAINames then OpenAINames[key] else lang
  }

  /** The lookups ignore case: two names that lower-case alike get the same
      DeepL code, and for Google and OpenAI the same answer whenever the
      table knows them. */
  lemma CaseInsensitive(a: string, b: string)
    requires ToLower(a) == ToLower(b)
    ensures DeeplTargetLang(a).Ok? == DeeplTargetLang(b).Ok?
    ensures DeeplTargetLang(a).Ok? ==> DeeplTargetLang(a) == DeeplTargetLang(b)
    ensures ToLower(a) in GoogleCodes ==> GoogleTargetLang(a) == GoogleTargetLang(b)
    ensures ToLower(a) in OpenAINames ==> OpenAITargetLang(a) == OpenAITargetLang(b)
  {
  }

  /** All three tables know exactly the default languages. */
  lemma TablesCoverDefaults()
    ensures DeeplCodes.Keys == GoogleCodes.Keys == OpenAINames.Keys
    ensures forall l :: l in DeeplCodes <==> l in DefaultLanguages
  {
  }

  /** A default language name is already lower case, so it is found as is. */
  lemma LowerOfLower(s: string)
    requires forall i :: 0 <= i < |s| ==> 'a' <= s[i] <= 'z'
    ensures ToLower(s) == s
  {
  }

  lemma DefaultsResolve(l: string)
    requires l in DefaultLanguages
    ensures DeeplTargetLang(l) == Ok(DeeplCodes[l])
    ensures GoogleTargetLang(l) == GoogleCodes[l]
    ensures OpenAITargetLang(l) == OpenAINames[l]
  {
    LowerOfLower(l);
    TablesCoverDefaults();
  }

  /** DeepL gives both Chinese variants the same code; Google and OpenAI
      keep them apart. */
  lemma ChineseVariants()
    ensures DeeplTargetLang("chinese") == DeeplTargetLang("chinesesimp") == Ok("ZH")
    ensures GoogleTargetLang("chinese") == "zh" && GoogleTargetLang("chinesesimp") == "zh-CN"
    ensures OpenAITargetLang("chinesesimp") == "Simplified Chinese"
  {
    ChineseDeepl();
    ChineseGoogle();
    ChineseOpenAI();
  }

  lemma ChineseLower()
    ensures ToLower("chinese") == "chinese" && ToLower("chinesesimp") == "chinesesimp"
  {
    LowerOfLower("chinese");
    LowerOfLower("chinesesimp");
  }

  lemma ChineseDeepl()
    ensures DeeplTargetLang("chinese") == DeeplTargetLang("chinesesimp") == Ok("ZH")
  {
    ChineseLower();
    assert "chinese" in DeeplCodes && DeeplCodes["chinese"] == "ZH";
    assert "chinesesimp" in DeeplCodes && DeeplCodes["chinesesimp"] == "ZH";
  }

  lemma ChineseGoogle()
    ensures GoogleTargetLang("chinese") == "zh" && GoogleTargetLang("chinesesimp") == "zh-CN"
  {
    ChineseLower();
    assert "chinese" in GoogleCodes && GoogleCodes["chinese"] == "zh";
    assert "chinesesimp" in GoogleCodes && GoogleCodes["chinesesimp"] == "zh-CN";
  }

  lemma ChineseOpenAI()
    ensures OpenAITargetLang("chinesesimp") == "Simplified Chinese"
  {
    ChineseLower();
    assert "chinesesimp" in OpenAINames && OpenAINames["chinesesimp"] == "Simplified Chinese";
  }

  /** A capitalised name resolves like the lower-case one. */
  lemma CapitalisedRussian()
    ensures DeeplTargetLang("Russian") == Ok("RU")
    ensures GoogleTargetLang("Russian") == "ru"
    ensures OpenAITargetLang("Russian") == "Russian"
  {
    assert ToLower("Russian") == "russian";
    assert "russian" in DeeplCodes && DeeplCodes["russian"] == "RU";
    assert "russian" in GoogleCodes && GoogleCodes["russian"] == "ru";
    assert "russian" in OpenAINames && OpenAINames["russian"] == "Russian";
  }
}
