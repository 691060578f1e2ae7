/** The names credentials are stored and asked for under. */
module CredentialNames {
  import opened Decimal
  import opened Text
  import opened Wrappers

  const MAX_ENV_TOKEN_LEN: nat := 64

  predicate IsUpper(c: char) { 'A' <= c <= 'Z' }
  predicate IsLower(c: char) { 'a' <= c <= 'z' }

  function LowerChar(c: char): char { if IsUpper(c) then c - 'A' + 'a' else c }
  function UpperChar(c: char): char { if IsLower(c) then c - 'a' + 'A' else c }

  function Map(s: string, f: char -> char): (t: string)
    ensures |t| == |s| && forall i | 0 <= i < |s| :: t[i] == f(s[i])
  {
    seq(|s|, i requires 0 <= i < |s| => f(s[i]))
  }

  function ToLower(s: string): string { Map(s, LowerChar) }
  function ToUpper(s: string): string { Map(s, UpperChar) }
  function DashChar(c: char): char { if c == '_' then '-' else c }
  function Dashes(s: string): string { Map(s, DashChar) }

  /** `validate_token_name`. */
  predicate ValidTokenName(name: string) {
    && name != []
    && (IsLower(name[0]) || IsDigit(name[0]) || name[0] == '_')
    && (forall i | 1 <= i < |name| :: IsLower(name[i]) || IsDigit(name[i]) || name[i] == '-')
  }

  /** `validate_env_token_name`. */
  predicate ValidEnvTokenName(name: string) {
    && 0 < |name| <= MAX_ENV_TOKEN_LEN
    && (IsUpper(name[0]) || name[0] == '_')
    && (forall i | 1 <= i < |name| :: IsUpper(name[i]) || IsDigit(name[i]) || name[i] == '_')
  }

  /** `slot_for_env_token`. */
  function SlotForEnvToken(name: string): Option<string> {
    if !ValidEnvTokenName(name) then None
    else
      var lowered := ToLower(name);
      if "_" <= lowered then Some("_" + Dashes(lowered[1..])) else Some(Dashes(lowered))
  }

  function EnvChar(c: char): char { if c == '-' then '_' else UpperChar(c) }

  /** The variable whose slot a stored name is: the mapping read backwards. */
  function EnvTokenFor(slot: string): string {
    if slot == [] then [] else [UpperChar(slot[0])] + Map(slot[1..], EnvChar)
  }

  /** A slot some variable reads: no longer than a variable may be, and not starting with a digit. */
  predicate IsEnvSlot(slot: string) {
    ValidTokenName(slot) && |slot| <= MAX_ENV_TOKEN_LEN && !IsDigit(slot[0])
  }

  /** The slot character by character: the first keeps its underscore. */
  lemma SlotChars(name: string)
    requires ValidEnvTokenName(name)
    ensures SlotForEnvToken(name).Some?
    ensures var slot := SlotForEnvToken(name).value;
            && |slot| == |name| && slot[0] == LowerChar(name[0])
            && forall i | 1 <= i < |name| :: slot[i] == DashChar(LowerChar(name[i]))
  {
    var lowered := ToLower(name);
    assert forall i | 0 <= i < |name| :: lowered[i] == LowerChar(name[i]);
    assert "_" <= lowered <==> lowered[0] == '_';
    if "_" <= lowered {
      var slot := "_" + Dashes(lowered[1..]);
      forall i | 1 <= i < |name| ensures slot[i] == DashChar(LowerChar(name[i])) {
        assert slot[i] == Dashes(lowered[1..])[i - 1] && lowered[1..][i - 1] == lowered[i];
      }
    }
  }

  lemma EnvTokenChars(slot: string)
    requires slot != []
    ensures var name := EnvTokenFor(slot);
            && |name| == |slot| && name[0] == UpperChar(slot[0])
            && forall i | 1 <= i < |slot| :: name[i] == EnvChar(slot[i])
  {
    var name, tail := EnvTokenFor(slot), Map(slot[1..], EnvChar);
    forall i | 1 <= i < |slot| ensures name[i] == EnvChar(slot[i]) {
      assert name[i] == tail[i - 1] && slot[1..][i - 1] == slot[i];
    }
  }

  lemma CharReadsBack(c: char)
    requires IsUpper(c) || IsDigit(c) || c == '_'
    ensures var d := DashChar(LowerChar(c));
            (IsLower(d) || IsDigit(d) || d == '-') && EnvChar(d) == c
  {
  }

  lemma CharsReadBack(name: string, slot: string)
    requires ValidEnvTokenName(name) && |slot| == |name| && slot[0] == LowerChar(name[0])
    requires forall i | 1 <= i < |name| :: slot[i] == DashChar(LowerChar(name[i]))
    ensures IsEnvSlot(slot) && EnvTokenFor(slot) == name
  {
    EnvTokenChars(slot);
    forall i | 1 <= i < |name|
      ensures (IsLower(slot[i]) || IsDigit(slot[i]) || slot[i] == '-') && EnvChar(slot[i]) == name[i]
    {
      CharReadsBack(name[i]);
    }
  }

  /** Every well-formed variable has a slot, the slot can be stored, and it leads back to the variable. */
  lemma SlotRoundTrip(name: string)
    requires ValidEnvTokenName(name)
    ensures SlotForEnvToken(name).Some?
    ensures IsEnvSlot(SlotForEnvToken(name).value) && EnvTokenFor(SlotForEnvToken(name).value) == name
  {
    SlotChars(name);
    CharsReadBack(name, SlotForEnvToken(name).value);
  }

  lemma SlotImage(slot: string)
    requires IsEnvSlot(slot)
    ensures ValidEnvTokenName(EnvTokenFor(slot)) && SlotForEnvToken(EnvTokenFor(slot)) == Some(slot)
  {
    var name := EnvTokenFor(slot);
    EnvTokenChars(slot);
    forall i | 1 <= i < |slot|
      ensures (IsUpper(name[i]) || IsDigit(name[i]) || name[i] == '_') && DashChar(LowerChar(name[i])) == slot[i]
    {
      assert name[i] == EnvChar(slot[i]);
    }
    assert ValidEnvTokenName(name);
    SlotChars(name);
    assert SlotForEnvToken(name).value == slot;
  }

  /** The mapping is total on well-formed names, one to one, and onto the slots a variable may have. */
  lemma SlotsAreInjective(a: string, b: string)
    requires ValidEnvTokenName(a) && ValidEnvTokenName(b)
    ensures SlotForEnvToken(a) == SlotForEnvToken(b) <==> a == b
  {
    SlotRoundTrip(a);
    SlotRoundTrip(b);
  }

  // ------------------------------------------------------------------------------- providers

  predicate IsProvider(name: string) {
    name == "enclave" || name == "github" || name == "npm"
  }

  /** `provider_env_var`. */
  function ProviderEnvVar(provider: string): Option<string> {
    if provider == "enclave" then Some("ENCLAVE_TOKEN")
    else if provider == "github" then Some("GITHUB_TOKEN")
    else if provider == "npm" then Some("NPM_TOKEN")
    else None
  }

  function TrimStart(s: string): (t: string)
    ensures |t| <= |s| && (s != [] && !IsWhitespace(s[0]) ==> t == s)
  {
    if s != [] && IsWhitespace(s[0]) then TrimStart(s[1..]) else s
  }

  function TrimEnd(s: string): (t: string)
    ensures |t| <= |s| && (s != [] && !IsWhitespace(s[|s| - 1]) ==> t == s)
  {
    if s != [] && IsWhitespace(s[|s| - 1]) then TrimEnd(s[..|s| - 1]) else s
  }

  function Normalize(variable: string): (s: string)
    ensures |s| <= |variable|
  {
    ToUpper(TrimEnd(TrimStart(variable)))
  }

  /** `provider_for_env_var`. */
  function ProviderForEnvVar(variable: string): Option<string> {
    var normalized := Normalize(variable);
    if normalized == "ENCLAVE_TOKEN" then Some("enclave")
    else if normalized == "GITHUB_TOKEN" then Some("github")
    else if normalized == "NPM_TOKEN" then Some("npm")
    else None
  }

  /** `env_token_slot`: a provider's variable reads the provider's token. */
  function EnvTokenSlot(variable: string): Option<string> {
    match ProviderForEnvVar(variable)
    case Some(provider) => Some(provider)
    case None => SlotForEnvToken(variable)
  }

  /** Two ways to ask for a provider's token: through its variable, in any case and with blanks around
      it, or under the variable whose own slot is the provider's name. */
  predicate AsksFor(variable: string, provider: string) {
    || ProviderForEnvVar(variable) == Some(provider)
    || (ProviderForEnvVar(variable).None? && variable == EnvTokenFor(provider))
  }

  lemma ProviderIsEnvSlot(provider: string)
    requires IsProvider(provider)
    ensures IsEnvSlot(provider)
  {
  }

  lemma ReadsProviderIff(variable: string, provider: string)
    requires IsProvider(provider)
    ensures EnvTokenSlot(variable) == Some(provider) <==> AsksFor(variable, provider)
  {
    ProviderIsEnvSlot(provider);
    SlotImage(provider);
    if ValidEnvTokenName(variable) { SlotRoundTrip(variable); }
  }

  /** The slot a provider's variable would have if it were not a provider's. */
  function ShadowedSlot(provider: string): string
    requires IsProvider(provider)
  {
    provider + "-token"
  }

  lemma ShadowedSlotOf(provider: string)
    requires IsProvider(provider)
    ensures IsEnvSlot(ShadowedSlot(provider))
    ensures Some(EnvTokenFor(ShadowedSlot(provider))) == ProviderEnvVar(provider)
  {
    var slot, variable := ShadowedSlot(provider), ProviderEnvVar(provider).value;
    EnvTokenChars(slot);
    NamesMatch(provider);
    assert |EnvTokenFor(slot)| == |variable|;
    assert forall i | 0 <= i < |slot| :: EnvTokenFor(slot)[i] == variable[i];
    assert EnvTokenFor(slot) == variable;
  }

  lemma NamesMatch(provider: string)
    requires IsProvider(provider)
    ensures var slot, variable := ShadowedSlot(provider), ProviderEnvVar(provider).value;
            && |slot| == |variable| && IsEnvSlot(slot) && UpperChar(slot[0]) == variable[0]
            && forall i | 1 <= i < |slot| :: EnvChar(slot[i]) == variable[i]
  {
  }

  /** A well-formed variable is its own normal form, so it is a provider's only by being its name. */
  lemma NormalForm(name: string)
    requires ValidEnvTokenName(name)
    ensures Normalize(name) == name
  {
    assert !IsWhitespace(name[0]) && !IsWhitespace(name[|name| - 1]);
    assert forall i | 0 <= i < |name| :: UpperChar(name[i]) == name[i];
    assert ToUpper(name) == name;
  }

  lemma ShadowedIff(slot: string, provider: string)
    requires IsEnvSlot(slot) && IsProvider(provider)
    ensures slot == ShadowedSlot(provider) <==> Some(EnvTokenFor(slot)) == ProviderEnvVar(provider)
  {
    ShadowedSlotOf(provider);
    SlotImage(ShadowedSlot(provider));
    SlotImage(slot);
  }

  lemma NamesProviderIff(name: string)
    requires ValidEnvTokenName(name)
    ensures ProviderForEnvVar(name).Some? <==>
            exists provider: string :: IsProvider(provider) && Some(name) == ProviderEnvVar(provider)
  {
    NormalForm(name);
    if ProviderForEnvVar(name).Some? {
      var provider := ProviderForEnvVar(name).value;
      assert IsProvider(provider) && Some(name) == ProviderEnvVar(provider);
    }
  }

  lemma RedirectedIff(slot: string)
    requires IsEnvSlot(slot)
    ensures ProviderForEnvVar(EnvTokenFor(slot)).Some? <==>
            exists provider: string :: IsProvider(provider) && slot == ShadowedSlot(provider)
  {
    SlotImage(slot);
    NamesProviderIff(EnvTokenFor(slot));
    if provider: string :| IsProvider(provider) && slot == ShadowedSlot(provider) {
      ShadowedIff(slot, provider);
    }
    if provider: string :| IsProvider(provider) && Some(EnvTokenFor(slot)) == ProviderEnvVar(provider) {
      ShadowedIff(slot, provider);
    }
  }

  /** A stored token can be asked for, by some variable, exactly when its name is at most 64 long, does
      not start with a digit and is not the name of a provider's variable written as a slot. */
  lemma StoredNameIsReadIff(slot: string)
    requires ValidTokenName(slot)
    ensures (exists variable: string :: EnvTokenSlot(variable) == Some(slot)) <==>
            && |slot| <= MAX_ENV_TOKEN_LEN && !IsDigit(slot[0])
            && !(exists provider: string :: IsProvider(provider) && slot == ShadowedSlot(provider))
  {
    if IsEnvSlot(slot) {
      SlotImage(slot);
      RedirectedIff(slot);
      if ProviderForEnvVar(EnvTokenFor(slot)).None? { assert EnvTokenSlot(EnvTokenFor(slot)) == Some(slot); }
    }
    forall variable: string | EnvTokenSlot(variable) == Some(slot)
      ensures IsEnvSlot(slot) && ProviderForEnvVar(EnvTokenFor(slot)).None?
    {
      if ProviderForEnvVar(variable).Some? {
        ProviderIsEnvSlot(slot);
        EveryProviderHasAlias(slot);
        ProviderNameIsNoVariable(slot);
      } else {
        SlotRoundTrip(variable);
      }
    }
  }

  lemma ProviderNameIsNoVariable(provider: string)
    requires IsProvider(provider)
    ensures ProviderForEnvVar(EnvTokenFor(provider)).None?
  {
    assert |EnvTokenFor(provider)| == |provider| < 9;
  }

  /** So a token stored as "github-token", a valid name, is never injected. */
  lemma ShadowedSlotsAreNeverRead(provider: string, variable: string)
    requires IsProvider(provider)
    ensures ValidTokenName(ShadowedSlot(provider)) && EnvTokenSlot(variable) != Some(ShadowedSlot(provider))
  {
    ShadowedSlotOf(provider);
    StoredNameIsReadIff(ShadowedSlot(provider));
  }

  /** Different variables read the same slot exactly when both ask for one provider. */
  lemma SlotsClashIff(a: string, b: string)
    requires a != b && EnvTokenSlot(a).Some? && EnvTokenSlot(b).Some?
    ensures EnvTokenSlot(a) == EnvTokenSlot(b) <==>
            exists provider: string :: IsProvider(provider) && AsksFor(a, provider) && AsksFor(b, provider)
  {
    forall provider: string | IsProvider(provider)
      ensures EnvTokenSlot(a) == Some(provider) <==> AsksFor(a, provider)
      ensures EnvTokenSlot(b) == Some(provider) <==> AsksFor(b, provider)
    {
      ReadsProviderIff(a, provider);
      ReadsProviderIff(b, provider);
    }
    if EnvTokenSlot(a) == EnvTokenSlot(b) {
      if ProviderForEnvVar(a).Some? || ProviderForEnvVar(b).Some? {
        assert IsProvider(EnvTokenSlot(a).value);
      } else {
        SlotsAreInjective(a, b);
      }
    }
  }

  lemma VariableNamesProvider(provider: string)
    requires IsProvider(provider)
    ensures ProviderForEnvVar(ProviderEnvVar(provider).value) == Some(provider)
  {
    var variable := ProviderEnvVar(provider).value;
    assert !IsWhitespace(variable[0]) && !IsWhitespace(variable[|variable| - 1]);
    assert ToUpper(variable) == variable;
  }

  /** And such a pair exists for every provider. */
  lemma EveryProviderHasAlias(provider: string)
    requires IsProvider(provider)
    ensures var variable, other := ProviderEnvVar(provider).value, EnvTokenFor(provider);
            variable != other && EnvTokenSlot(variable) == EnvTokenSlot(other) == Some(provider)
  {
    VariableNamesProvider(provider);
    ReadsProviderIff(EnvTokenFor(provider), provider);
    assert |EnvTokenFor(provider)| == |provider| < 9;
  }
}

/** Resolving a workspace's declarations to credentials. */
module Credentials {
  import opened CredentialNames
  import opened Wrappers

  /** What the store answers for a slot. */
  datatype Loaded = Found(token: string) | Missing | Failed

  type Store = string -> Loaded

  datatype Token = Token(name: string, envVar: string, value: string)

  /** What one declared provider resolves to: a token or nothing. */
  function ProviderToken(store: Store, provider: string): seq<Token> {
    match (ProviderEnvVar(provider), store(provider))
    case (Some(variable), Found(value)) => [Token(provider, variable, value)]
    case _ => []
  }

  function EnvToken(store: Store, variable: string): seq<Token> {
    match EnvTokenSlot(variable)
    case None => []
    case Some(slot) => if store(slot).Found? then [Token(slot, variable, store(slot).token)] else []
  }

  function ProviderTokens(store: Store, providers: seq<string>): seq<Token> {
    if providers == [] then []
    else ProviderTokens(store, providers[..|providers| - 1]) + ProviderToken(store, providers[|providers| - 1])
  }

  function EnvTokens(store: Store, variables: seq<string>): seq<Token> {
    if variables == [] then []
    else EnvTokens(store, variables[..|variables| - 1]) + EnvToken(store, variables[|variables| - 1])
  }

  predicate HasName(tokens: seq<Token>, name: string) {
    exists i | 0 <= i < |tokens| :: tokens[i].name == name
  }

  /** `resolve_providers`. */
  method ResolveProviders(store: Store, providers: seq<string>) returns (tokens: seq<Token>)
    ensures tokens == ProviderTokens(store, providers)
  {
    tokens := [];
    for i := 0 to |providers|
      invariant tokens == ProviderTokens(store, providers[..i])
    {
      assert providers[..i + 1][..i] == providers[..i];
      var variable := ProviderEnvVar(providers[i]);
      if variable.None? {
        continue;
      }
      match store(providers[i])
      case Found(value) => tokens := tokens + [Token(providers[i], variable.value, value)];
      case Missing =>
      case Failed =>
    }
    assert providers[..|providers|] == providers;
  }

  /** `resolve_env_tokens`. */
  method ResolveEnvTokens(store: Store, variables: seq<string>) returns (tokens: seq<Token>)
    ensures tokens == EnvTokens(store, variables)
  {
    tokens := [];
    for i := 0 to |variables|
      invariant tokens == EnvTokens(store, variables[..i])
    {
      assert variables[..i + 1][..i] == variables[..i];
      var slot := EnvTokenSlot(variables[i]);
      if slot.None? {
        continue;
      }
      match store(slot.value)
      case Found(value) => tokens := tokens + [Token(slot.value, variables[i], value)];
      case Missing =>
      case Failed =>
    }
    assert variables[..|variables|] == variables;
  }

  /** The first channel as it is, then each token of the second whose name is new. */
  function Merged(providers: seq<Token>, env: seq<Token>): seq<Token> {
    if env == [] then providers
    else
      var front, last := Merged(providers, env[..|env| - 1]), env[|env| - 1];
      if HasName(front, last.name) then front else front + [last]
  }

  /** `merge_channels`. */
  method MergeChannels(providers: seq<Token>, env: seq<Token>) returns (credentials: seq<Token>)
    ensures credentials == Merged(providers, env)
  {
    credentials := providers;
    for k := 0 to |env|
      invariant credentials == Merged(providers, env[..k])
    {
      assert env[..k + 1][..k] == env[..k];
      if !HasName(credentials, env[k].name) {
        credentials := credentials + [env[k]];
      }
    }
    assert env[..|env|] == env;
  }

  ghost predicate NamedOnce(tokens: seq<Token>) {
    forall i, j | 0 <= i < j < |tokens| :: tokens[i].name != tokens[j].name
  }

  lemma AppendNewName(tokens: seq<Token>, token: Token)
    requires !HasName(tokens, token.name)
    ensures NamedOnce(tokens + [token]) <==> NamedOnce(tokens)
  {
    var all := tokens + [token];
    assert forall i | 0 <= i < |tokens| :: all[i] == tokens[i];
  }

  /** Nothing is lost but repeats of a name, and repeats come from the first channel alone. */
  lemma {:induction false} MergeKeepsNames(providers: seq<Token>, env: seq<Token>)
    ensures providers <= Merged(providers, env)
    ensures forall t | t in Merged(providers, env) :: t in providers || t in env
    ensures forall t | t in env :: HasName(Merged(providers, env), t.name)
    ensures NamedOnce(Merged(providers, env)) <==> NamedOnce(providers)
  {
    if env != [] {
      var front, last := Merged(providers, env[..|env| - 1]), env[|env| - 1];
      MergeKeepsNames(providers, env[..|env| - 1]);
      if !HasName(front, last.name) { AppendNewName(front, last); }
      forall t | t in env ensures HasName(Merged(providers, env), t.name) {
        NameStays(front, last, t.name);
        assert t == last || t in env[..|env| - 1];
      }
    }
  }

  lemma NameStays(front: seq<Token>, last: Token, name: string)
    ensures HasName(front, name) || name == last.name ==> HasName(front + [last], name)
  {
    var all := front + [last];
    assert all[|front|] == last;
    if HasName(front, name) {
      var i :| 0 <= i < |front| && front[i].name == name;
      assert all[i].name == name;
    }
  }

  /** Every token was read from the slot it is named after. */
  ghost predicate Honest(store: Store, tokens: seq<Token>) {
    forall t | t in tokens :: store(t.name) == Found(t.value)
  }

  lemma {:induction false} ProvidersAreHonest(store: Store, providers: seq<string>)
    ensures Honest(store, ProviderTokens(store, providers))
    ensures forall p | p in providers && ProviderEnvVar(p).Some? && store(p).Found? ::
      Token(p, ProviderEnvVar(p).value, store(p).token) in ProviderTokens(store, providers)
  {
    if providers != [] { ProvidersAreHonest(store, providers[..|providers| - 1]); }
  }

  lemma {:induction false} EnvTokensAreHonest(store: Store, variables: seq<string>)
    ensures Honest(store, EnvTokens(store, variables))
    ensures forall v | v in variables && EnvTokenSlot(v).Some? && store(EnvTokenSlot(v).value).Found? ::
      Token(EnvTokenSlot(v).value, v, store(EnvTokenSlot(v).value).token) in EnvTokens(store, variables)
  {
    if variables != [] { EnvTokensAreHonest(store, variables[..|variables| - 1]); }
  }

  /** `credentials`: against one state of the store, every value injected through either channel is in
      the merged list, and everything in the list is injected through one of them. */
  method AllCredentials(store: Store, providers: seq<string>, variables: seq<string>)
    returns (credentials: seq<Token>)
    ensures credentials == Merged(ProviderTokens(store, providers), EnvTokens(store, variables))
    ensures forall t | t in ProviderTokens(store, providers) + EnvTokens(store, variables) ::
      exists c: Token :: c in credentials && c.name == t.name && c.value == t.value
    ensures forall c | c in credentials :: c in ProviderTokens(store, providers) + EnvTokens(store, variables)
    ensures Honest(store, credentials)
    ensures NamedOnce(credentials) <==> !RepeatsStored(store, providers)
  {
    var first := ResolveProviders(store, providers);
    var second := ResolveEnvTokens(store, variables);
    credentials := MergeChannels(first, second);
    MergeKeepsNames(first, second);
    ProvidersAreHonest(store, providers);
    EnvTokensAreHonest(store, variables);
    NamedOnceIff(store, providers);
    forall t: Token | t in first + second
      ensures exists c: Token :: c in credentials && c.name == t.name && c.value == t.value
    {
      if t in first {
        assert t in credentials;
      } else {
        var i :| 0 <= i < |credentials| && credentials[i].name == t.name;
        assert credentials[i] in credentials && credentials[i] in first + second;
      }
    }
  }

  predicate Resolves(store: Store, provider: string) {
    ProviderEnvVar(provider).Some? && store(provider).Found?
  }

  /** A supported provider the store holds a token for is declared twice. */
  ghost predicate RepeatsStored(store: Store, providers: seq<string>) {
    exists i, j | 0 <= i < j < |providers| :: providers[i] == providers[j] && Resolves(store, providers[i])
  }

  lemma {:induction false} ProviderNames(store: Store, providers: seq<string>, name: string)
    ensures HasName(ProviderTokens(store, providers), name) <==> name in providers && Resolves(store, name)
  {
    if providers != [] {
      var front, last := providers[..|providers| - 1], providers[|providers| - 1];
      ProviderNames(store, front, name);
      assert providers == front + [last];
      var tokens := ProviderTokens(store, front);
      if Resolves(store, last) {
        var token := ProviderToken(store, last)[0];
        assert ProviderTokens(store, providers) == tokens + [token];
        NameStays(tokens, token, name);
        NameComes(tokens, token, name);
      } else {
        assert ProviderTokens(store, providers) == tokens;
      }
    }
  }

  lemma NameComes(front: seq<Token>, last: Token, name: string)
    ensures HasName(front + [last], name) ==> HasName(front, name) || name == last.name
  {
    if HasName(front + [last], name) {
      var i :| 0 <= i < |front + [last]| && (front + [last])[i].name == name;
      assert i < |front| ==> front[i].name == name;
    }
  }

  lemma {:induction false} NamedOnceIff(store: Store, providers: seq<string>)
    ensures NamedOnce(ProviderTokens(store, providers)) <==> !RepeatsStored(store, providers)
  {
    if providers != [] {
      var front, last := providers[..|providers| - 1], providers[|providers| - 1];
      NamedOnceIff(store, front);
      ProviderNames(store, front, last);
      RepeatsSnoc(store, front, last);
      assert providers == front + [last];
      var tokens := ProviderTokens(store, front);
      if Resolves(store, last) {
        var token := ProviderToken(store, last)[0];
        assert ProviderTokens(store, providers) == tokens + [token];
        if HasName(tokens, last) { RepeatedName(tokens, token); } else { AppendNewName(tokens, token); }
      } else {
        assert ProviderTokens(store, providers) == tokens;
      }
    }
  }

  lemma RepeatedName(tokens: seq<Token>, token: Token)
    requires HasName(tokens, token.name)
    ensures !NamedOnce(tokens + [token])
  {
    var i :| 0 <= i < |tokens| && tokens[i].name == token.name;
    var all := tokens + [token];
    assert all[i].name == all[|tokens|].name;
  }

  lemma RepeatsSnoc(store: Store, front: seq<string>, last: string)
    ensures RepeatsStored(store, front + [last]) <==>
            RepeatsStored(store, front) || (last in front && Resolves(store, last))
  {
    var all := front + [last];
    assert forall i | 0 <= i < |front| :: all[i] == front[i];
    if last in front && Resolves(store, last) {
      var i :| 0 <= i < |front| && front[i] == last;
      assert all[i] == all[|front|];
    }
  }

  /** For every store, declarations name each credential once exactly when no provider that resolves is
      declared twice; the variables do not matter. Providers as create and update store them, collected
      into a set, never are. */
  lemma MergedOnceIff(store: Store, providers: seq<string>, variables: seq<string>)
    ensures (forall i, j | 0 <= i < j < |providers| :: providers[i] != providers[j]) ==>
            !RepeatsStored(store, providers)
    ensures NamedOnce(Merged(ProviderTokens(store, providers), EnvTokens(store, variables))) <==>
            !RepeatsStored(store, providers)
  {
    MergeKeepsNames(ProviderTokens(store, providers), EnvTokens(store, variables));
    NamedOnceIff(store, providers);
  }

  /** A definition that names a stored provider twice has its credential in the list twice. */
  lemma RepeatedProviderStaysTwice(store: Store, provider: string)
    requires Resolves(store, provider)
    ensures var list := Merged(ProviderTokens(store, [provider, provider]), EnvTokens(store, []));
            |list| == 2 && list[0] == list[1] && list[0].name == provider
  {
    assert [provider, provider][..1] == [provider] && [provider][..0] == [];
    assert ProviderTokens(store, [provider]) == [] + ProviderToken(store, provider);
  }
}
