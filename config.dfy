/** The integration's settings: ten named sections, each a map from setting
    names to values, read by section name and updated one existing setting
    at a time. */
module Config {

  /** A setting's value: the kinds the settings table uses. */
  datatype Value =
    | Bool(b: bool)
    | Int(i: int)
    | Str(s: string)
    | List(items: seq<Value>)
    | Dict(entries: map<string, Value>)

  type Section = map<string, Value>

  const SectionNames: set<string> :=
    {"urls", "webdriver", "login", "search", "detail", "download", "error", "performance", "security", "test"}

  function StrList(xs: seq<string>): seq<Value> {
    seq(|xs|, i requires 0 <= i < |xs| => Str(xs[i]))
  }

  /** The settings as shipped, one function per section. */
  function UyapUrls(): Section {
    map[
      "avukat_portal" := Str("https://avukat.uyap.gov.tr"),
      "login_page" := Str("https://avukat.uyap.gov.tr/giris"),
      "dashboard" := Str("https://avukat.uyap.gov.tr/ana"),
      "case_search" := Str("https://avukat.uyap.gov.tr/dosya/ara")]
  }

  function WebdriverConfig(): Section {
    map[
      "headless" := Bool(false),
      "page_load_timeout" := Int(30),
      "implicit_wait" := Int(10),
      "chrome_options" := List(StrList([
        "--no-sandbox",
        "--disable-dev-shm-usage",
        "--disable-blink-features=AutomationControlled",
        "--user-agent=Mozilla/5.0 (Windows NT 10.0; Win64; x64) AppleWebKit/537.36"]))]
  }

  function LoginConfig(): Section {
    map[
      "max_login_wait" := Int(300),
      "login_check_interval" := Int(10),
      "success_url_keywords" := List(StrList(["ana", "dashboard", "main"])),
      "show_login_instructions" := Bool(true)]
  }

  function SearchConfig(): Section {
    map[
      "default_filters" := Dict(map[
        "yargi_turu" := Str(""),
        "yargi_birimi" := Str(""),
        "durum" := Str(""),
        "tarih_baslangic" := Str(""),
        "tarih_bitis" := Str("")]),
      "max_results" := Int(100),
      "results_per_page" := Int(20),
      "search_timeout" := Int(60)]
  }

  function DetailConfig(): Section {
    map[
      "detail_load_timeout" := Int(30),
      "fetch_parties" := Bool(true),
      "fetch_expenses" := Bool(true),
      "fetch_documents" := Bool(true),
      "fetch_hearings" := Bool(true)]
  }

  function DownloadConfig(): Section {
    map[
      "download_folder" := Str("uyap_downloads"),
      "max_file_size_mb" := Int(50),
      "allowed_file_types" := List(StrList([".pdf", ".doc", ".docx", ".jpg", ".jpeg", ".png", ".tiff"])),
      "download_timeout" := Int(120),
      "duplicate_handling" := Str("rename")]
  }

  function ErrorConfig(): Section {
    map[
      "max_retries" := Int(3),
      "retry_delay" := Int(5),
      "log_level" := Str("INFO"),
      "screenshot_on_error" := Bool(true),
      "screenshot_folder" := Str("error_screenshots")]
  }

  function PerformanceConfig(): Section {
    map[
      "element_wait_timeout" := Int(15),
      "ajax_wait_time" := Int(2),
      "operation_delay" := Int(1),
      "batch_size" := Int(5)]
  }

  function SecurityConfig(): Section {
    map[
      "session_timeout_minutes" := Int(60),
      "auto_logout_check" := Bool(true),
      "security_verification" := Bool(true),
      "ip_change_detection" := Bool(false)]
  }

  function TestConfig(): Section {
    map[
      "test_mode" := Bool(false),
      "use_mock_data" := Bool(false),
      "test_timeout" := Int(300),
      "debug_mode" := Bool(true)]
  }

  function InitialSections(): map<string, Section> {
    map[
      "urls" := UyapUrls(),
      "webdriver" := WebdriverConfig(),
      "login" := LoginConfig(),
      "search" := SearchConfig(),
      "detail" := DetailConfig(),
      "download" := DownloadConfig(),
      "error" := ErrorConfig(),
      "performance" := PerformanceConfig(),
      "security" := SecurityConfig(),
      "test" := TestConfig()
    ]
  }

  /** The shipped sections are exactly the ten names. */
  lemma InitialSectionNames()
    ensures InitialSections().Keys == SectionNames
  {
  }

  /** Every shipped section has at least one setting. */
  lemma InitialSectionsNonEmpty()
    ensures forall name :: name in InitialSections() ==> InitialSections()[name] != map[]
  {
    assert "case_search" in UyapUrls() && "chrome_options" in WebdriverConfig();
    assert "show_login_instructions" in LoginConfig() && "search_timeout" in SearchConfig();
    assert "fetch_hearings" in DetailConfig() && "duplicate_handling" in DownloadConfig();
    assert "screenshot_folder" in ErrorConfig() && "batch_size" in PerformanceConfig();
    assert "ip_change_detection" in SecurityConfig() && "debug_mode" in TestConfig();
  }

  /** Looking a section up by name, with the empty map for an unknown name. */
  function Lookup(sections: map<string, Section>, name: string): Section {
    if name in sections then sections[name] else map[]
  }

  /** The guarded update: only a setting that already exists in an existing
      section is overwritten. Gives the new sections and whether the update
      happened. */
  function Updated(sections: map<string, Section>, section: string, key: string, value: Value): (map<string, Section>, bool) {
    if section in sections && key in sections[section] then
      (sections[section := sections[section][key := value]], true)
    else
      (sections, false)
  }

  /** The update happens exactly when the section exists and already has the key. */
  lemma UpdatedIff(sections: map<string, Section>, section: string, key: string, value: Value)
    ensures Updated(sections, section, key, value).1 <==> section in sections && key in sections[section]
  {
  }

  /** An update never adds or removes a section or a setting. */
  lemma UpdatedKeepsKeys(sections: map<string, Section>, section: string, key: string, value: Value)
    ensures var r := Updated(sections, section, key, value).0;
      r.Keys == sections.Keys && forall name :: name in r ==> r[name].Keys == sections[name].Keys
  {
    var r := Updated(sections, section, key, value).0;
    if section in sections && key in sections[section] {
      assert r[section].Keys == sections[section].Keys + {key};
    }
  }

  /** A successful update changes that one setting and nothing else. */
  lemma UpdatedOnlyThatSetting(sections: map<string, Section>, section: string, key: string, value: Value)
    requires Updated(sections, section, key, value).1
    ensures var r := Updated(sections, section, key, value).0;
      && r[section][key] == value
      && (forall name :: name in sections && name != section ==> r[name] == sections[name])
      && (forall k :: k in sections[section] && k != key ==> r[section][k] == sections[section][k])
  {
  }

  /** A refused update leaves every section as it was. */
  lemma UpdatedRefusedUnchanged(sections: map<string, Section>, section: string, key: string, value: Value)
    requires !Updated(sections, section, key, value).1
    ensures Updated(sections, section, key, value).0 == sections
  {
  }

  /** Reading a section after a successful update of one of its settings
      gives the new value. */
  lemma LookupAfterUpdate(sections: map<string, Section>, section: string, key: string, value: Value)
    requires Updated(sections, section, key, value).1
    ensures Lookup(Updated(sections, section, key, value).0, section)[key] == value
  {
  }

  /** An unknown section name reads as the empty map. */
  lemma LookupExampleUnknownSection()
    ensures Lookup(InitialSections(), "unknown") == map[]
  {
    InitialSectionNames();
  }

  /** Switching on headless mode is an update of an existing setting. */
  lemma UpdateExampleHeadless()
    ensures var r := Updated(InitialSections(), "webdriver", "headless", Bool(true));
      r.1 && Lookup(r.0, "webdriver")["headless"] == Bool(true)
  {
    var s, k := "webdriver", "headless";
    assert s in InitialSections() && k in InitialSections()[s];
    LookupAfterUpdate(InitialSections(), s, k, Bool(true));
  }

  /** A setting the section does not have is refused. */
  lemma UpdateExampleUnknownKey()
    ensures Updated(InitialSections(), "webdriver", "nonexistent", Int(1)) == (InitialSections(), false)
  {
    var s, k := "webdriver", "nonexistent";
    assert |k| == 11;
    assert k !in WebdriverConfig();
    assert InitialSections()[s] == WebdriverConfig();
  }

  /** The settings store: the single table of sections that reads and
      updates share. */
  class ConfigStore {
    var sections: map<string, Section>

    /** The sections are the ten names, each with the settings it shipped with. */
    ghost predicate Valid()
      reads this
    {
      && sections.Keys == SectionNames
      && forall name :: name in sections ==> sections[name].Keys == InitialSections()[name].Keys
    }

    constructor ()
      ensures Valid()
      ensures sections == InitialSections()
    {
      sections := InitialSections();
      InitialSectionNames();
    }

    /** get_config: the named section, or the empty map for an unknown name. */
    function GetConfig(name: string): (s: Section)
      reads this
      requires Valid()
      ensures s != map[] <==> name in SectionNames
      ensures name in SectionNames ==> s == sections[name] && s.Keys == InitialSections()[name].Keys
    {
      InitialSectionNames();
      InitialSectionsNonEmpty();
      Lookup(sections, name)
    }

    /** update_config: overwrites an existing setting of an existing section
        and reports whether it did. */
    method UpdateConfig(section: string, key: string, value: Value) returns (updated: bool)
      requires Valid()
      modifies this
      ensures Valid()
      ensures (sections, updated) == Updated(old(sections), section, key, value)
      ensures updated <==> section in SectionNames && key in old(GetConfig(section))
      ensures updated ==> GetConfig(section)[key] == value
      ensures !updated ==> sections == old(sections)
    {
      if section in sections && key in sections[section] {
        sections := sections[section := sections[section][key := value]];
        updated := true;
      } else {
        updated := false;
      }
      UpdatedKeepsKeys(old(sections), section, key, value);
    }
  }
}
