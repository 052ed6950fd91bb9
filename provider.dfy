/** Provider selection of internal/llm: the configured provider name picks one
    of three back ends, and each back end's constructor checks its settings.
    An SDK client is represented by the settings it is built from (key, base
    URL) together with the model it will ask for; completion requests are not
    modelled. */
module Llm {
  import opened Strings

  datatype AnthropicConfig = AnthropicConfig(apiKey: string, model: string)
  datatype OpenAIConfig = OpenAIConfig(apiKey: string, model: string)
  datatype OllamaConfig = OllamaConfig(model: string, url: string)

  /** The part of the configuration that provider selection reads. */
  datatype Config = Config(
    provider: string,
    anthropic: AnthropicConfig,
    openai: OpenAIConfig,
    ollama: OllamaConfig)

  /** A ready back end. */
  datatype Provider =
    | Anthropic(apiKey: string, model: string)
    | OpenAI(apiKey: string, model: string)
    | Ollama(baseUrl: string, apiKey: string, model: string)

  /** A value or the error that took its place. */
  datatype Outcome = Ok(value: Provider) | Err(message: string)

  const AnthropicKeyMissing: string :=
    "anthropic " + "API key" + " not set (set ANTHROPIC_API_KEY or configure in ~/.config/howdoi/config.yaml)"
  const OpenAIKeyMissing: string :=
    "openai " + "API key" + " not set (set OPENAI_API_KEY or configure in ~/.config/howdoi/config.yaml)"

  /** The key the Ollama client is given; the server does not check it. */
  const OllamaKey: string := "ollama"

  /** The name under which a back end is selected. */
  function NameOf(p: Provider): string {
    match p
    case Anthropic(_, _) => "anthropic"
    case OpenAI(_, _) => "openai"
    case Ollama(_, _, _) => "ollama"
  }

  /** `NewAnthropic`: refuses an empty key, otherwise keeps key and model. */
  function NewAnthropic(cfg: AnthropicConfig): (r: Outcome)
    ensures r.Err? <==> cfg.apiKey == ""
    ensures r.Err? ==> Contains(r.message, "API key")
    ensures r.Ok? ==> r.value.Anthropic? && r.value.apiKey == cfg.apiKey && r.value.model == cfg.model
  {
    if cfg.apiKey == "" then
      Mentions("anthropic ", "API key", " not set (set ANTHROPIC_API_KEY or configure in ~/.config/howdoi/config.yaml)");
      Err(AnthropicKeyMissing)
    else Ok(Anthropic(cfg.apiKey, cfg.model))
  }

  /** `NewOpenAI`: refuses an empty key, otherwise keeps key and model. */
  function NewOpenAI(cfg: OpenAIConfig): (r: Outcome)
    ensures r.Err? <==> cfg.apiKey == ""
    ensures r.Err? ==> Contains(r.message, "API key")
    ensures r.Ok? ==> r.value.OpenAI? && r.value.apiKey == cfg.apiKey && r.value.model == cfg.model
  {
    if cfg.apiKey == "" then
      Mentions("openai ", "API key", " not set (set OPENAI_API_KEY or configure in ~/.config/howdoi/config.yaml)");
      Err(OpenAIKeyMissing)
    else Ok(OpenAI(cfg.apiKey, cfg.model))
  }

  /** `NewOllama`: never fails; the client points at the configured URL. */
  function NewOllama(cfg: OllamaConfig): (r: Outcome)
    ensures r.Ok?
    ensures r.value.Ollama? && r.value.baseUrl == cfg.url && r.value.model == cfg.model
  {
    Ok(Ollama(cfg.url, OllamaKey, cfg.model))
  }

  /** `NewProvider`: an exact, case-sensitive match on the provider name. */
  function NewProvider(cfg: Config): (r: Outcome)
    ensures r.Ok? <==>
              || (cfg.provider == "anthropic" && cfg.anthropic.apiKey != "")
              || (cfg.provider == "openai" && cfg.openai.apiKey != "")
              || cfg.provider == "ollama"
    ensures r.Ok? ==> NameOf(r.value) == cfg.provider
    ensures r.Ok? && cfg.provider == "anthropic" ==> r.value.model == cfg.anthropic.model
    ensures r.Ok? && cfg.provider == "openai" ==> r.value.model == cfg.openai.model
    ensures r.Ok? && cfg.provider == "ollama" ==> r.value.model == cfg.ollama.model
    ensures r.Err? && cfg.provider in {"anthropic", "openai"} ==> Contains(r.message, "API key")
    ensures r.Err? && cfg.provider !in {"anthropic", "openai"} ==>
              r.message == "unknown provider: " + cfg.provider && Contains(r.message, "unknown provider")
  {
    match cfg.provider
    case "anthropic" => NewAnthropic(cfg.anthropic)
    case "openai" => NewOpenAI(cfg.openai)
    case "ollama" => NewOllama(cfg.ollama)
    case _ =>
      Mentions("", "unknown provider", ": " + cfg.provider);
      assert "" + "unknown provider" + (": " + cfg.provider) == "unknown provider: " + cfg.provider;
      Err("unknown provider: " + cfg.provider)
  }

  // -------------------------------------------------------------- properties

  /** A string contains each of its pieces. */
  lemma Mentions(before: string, word: string, after: string)
    ensures Contains(before + word + after, word)
  {
    var s := before + word + after;
    assert s[|before|..][..|word|] == word;
  }

  /** Ollama is selected whatever keys the other sections hold. */
  lemma OllamaIgnoresKeys(cfg: Config, a: AnthropicConfig, o: OpenAIConfig)
    requires cfg.provider == "ollama"
    ensures NewProvider(cfg.(anthropic := a, openai := o)) == NewProvider(cfg)
    ensures NewProvider(cfg).Ok?
  {
  }

  /** Selection reads only the section of the chosen back end. */
  lemma OnlyChosenSectionMatters(cfg: Config, other: Config)
    requires cfg.provider == other.provider
    requires cfg.provider == "anthropic" ==> cfg.anthropic == other.anthropic
    requires cfg.provider == "openai" ==> cfg.openai == other.openai
    requires cfg.provider == "ollama" ==> cfg.ollama == other.ollama
    ensures NewProvider(cfg) == NewProvider(other)
  {
  }

  /** Names differing only in case are unknown providers. */
  lemma CaseMatters(cfg: Config)
    requires cfg.provider == "Anthropic" || cfg.provider == "OPENAI" || cfg.provider == "Ollama"
    ensures NewProvider(cfg).Err?
    ensures NewProvider(cfg).message == "unknown provider: " + cfg.provider
  {
  }
}
