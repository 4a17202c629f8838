/**
 Which members are never written to disk, letter by letter, and what that leaves of a row (`scrub` in
 `crates/core/src/cache.rs` and `is_secret_name` in `crates/catalog/src/secret.rs`).
 */
module SecretMeaning {
  import opened Wrappers
  import T = Text
  import opened Letters
  import opened Json
  import opened Secrets
  import opened Scrub

  // ---- the rule, letter by letter ----

  predicate IsCredentialWord(w: string) {
    || w == "password" || w == "secret" || w == "token" || w == "privatekey" || w == "apikey" || w == "sshkey"
    || w == "publickey" || w == "credential" || w == "passphrase" || w == "accessinformation" || w == "cookie"
    || w == "authorization" || w == "certificate" || w == "licensekey" || w == "accesskey" || w == "encryptionkey"
    || w == "cloudinit" || w == "sysprep" || w == "unattend" || w == "userdata"
  }

  predicate IsHarmlessName(w: string) {
    || w == "hasprivatekey" || w == "shouldvalidateadcredential" || w == "isforceresetpasswordenabled"
    || w == "bucketsaccesskeys" || w == "claimtokenextid" || w == "accesskeyname" || w == "apicredentialstatus"
    || w == "credentialissuer" || w == "authorizationpolicytype"
  }

  /** The key names a credential: a word for one stands anywhere in it, or `script` at its end, and it is
      none of the names that only look like it. */
  ghost predicate NamesCredential(key: string) {
    && !(exists w :: IsHarmlessName(w) && IsAnyCase(key, w))
    && ((exists w, i: nat :: IsCredentialWord(w) && StandsAt(key, i, w)) ||
        (|key| >= 6 && StandsAt(key, |key| - 6, "script")))
  }

  predicate HoldsKeyMaterial(v: Value) {
    v.String? &&
    ("ssh-" <= v.s || "ecdsa-" <= v.s || "sk-" <= v.s || "-----BEGIN" <= v.s || |T.Utf8(v.s)| > 100)
  }

  /** The members that go. */
  ghost predicate IsCredential(key: string, value: Value) {
    && !(key != "" && key[0] == '$')
    && (IsAnyCase(key, "guestCustomization") || NamesCredential(key) || (key == "key" && HoldsKeyMaterial(value)))
  }

  lemma WordsAreListed(w: string)
    ensures w in MARKERS <==> IsCredentialWord(w)
    ensures w in KEEP <==> IsHarmlessName(w)
  {}

  lemma MarkersAreLower(w: string)
    requires IsCredentialWord(w)
    ensures HasNoCapitals(w)
  {
    WordsAreListed(w);
    if w in MARKERS[..7] {
      KeysAreLower(w);
    } else if w in MARKERS[7..14] {
      PapersAreLower(w);
    } else {
      PayloadsAreLower(w);
    }
    hide HasNoCapitals, MARKERS;
  }

  lemma KeysAreLower(w: string)
    requires w in MARKERS[..7]
    ensures HasNoCapitals(w)
  {}

  lemma PapersAreLower(w: string)
    requires w in MARKERS[7..14]
    ensures HasNoCapitals(w)
  {}

  lemma PayloadsAreLower(w: string)
    requires w in MARKERS[14..]
    ensures HasNoCapitals(w)
  {}

  lemma HarmlessAreLower(w: string)
    requires IsHarmlessName(w)
    ensures HasNoCapitals(w)
  {
    WordsAreListed(w);
    if w in KEEP[..4] {
      FlagsAreLower(w);
    } else {
      StatesAreLower(w);
    }
    hide HasNoCapitals, KEEP;
  }

  lemma FlagsAreLower(w: string)
    requires w in KEEP[..4]
    ensures HasNoCapitals(w)
  {}

  lemma StatesAreLower(w: string)
    requires w in KEEP[4..]
    ensures HasNoCapitals(w)
  {}

  lemma SecretNamesAre(key: string)
    ensures IsSecretName(key) <==> NamesCredential(key)
  {
    var lower := T.LowerCase(key);
    forall w ensures w in MARKERS <==> IsCredentialWord(w)
      ensures w in KEEP <==> IsHarmlessName(w)
      ensures IsCredentialWord(w) ==> (T.Contains(lower, w) <==> exists i: nat :: StandsAt(key, i, w))
      ensures IsHarmlessName(w) ==> (lower == w <==> IsAnyCase(key, w))
    {
      WordsAreListed(w);
      if IsCredentialWord(w) {
        MarkersAreLower(w);
        HoldsWord(key, w);
      }
      if IsHarmlessName(w) {
        HarmlessAreLower(w);
        FoldedIs(key, w);
      }
    }
    EndsOnWord(key, "script");
    assert SUFFIXES[0] == "script" && |SUFFIXES| == 1;
    hide T.Contains, T.LowerCase, T.EndsWith, StandsAt, IsAnyCase, IsCredentialWord, IsHarmlessName, MARKERS, KEEP;
    assert (exists i :: 0 <= i < |MARKERS| && T.Contains(lower, MARKERS[i])) <==>
           exists w :: w in MARKERS && T.Contains(lower, w);
  }

  /** The rule of the program is this one. */
  lemma SecretsAreCredentials(m: Member)
    ensures IsSecret(m) <==> IsCredential(m.key, m.value)
  {
    SecretNamesAre(m.key);
    BothFold(m.key, OPAQUE_KEY);
    hide NamesCredential, IsSecretName, T.LowerCase, IsAnyCase;
  }

  // ---- what is left ----

  /** No credential is left in a scrubbed document, at any depth. */
  lemma CredentialsAreGone(v: Value, m: Member)
    requires Occurs(m, Scrubbed(v))
    ensures !IsCredential(m.key, m.value)
  {
    NothingSecretIsLeft(v, m);
    SecretsAreCredentials(m);
    hide IsCredential, IsSecret, Occurs;
  }

  /** A key finds nothing in the scrubbed members exactly when there was nothing, or a credential. */
  lemma OneKeyAfterScrub(members: seq<Member>, key: string)
    requires DistinctKeys(members)
    ensures var there := Get(members, key);
            Get(ScrubbedMembers(members), key) ==
              if there.None? || IsCredential(key, there.value) then None else Some(Scrubbed(there.value))
  {
    GetScrubbed(members, key);
    if Get(members, key).Some? {
      SecretsAreCredentials(Member(key, Get(members, key).value));
    }
    hide IsCredential, IsSecret, DistinctKeys, Get, ScrubbedMembers;
  }

  /** The key at `i` of a path leads to a credential. */
  ghost predicate LeadsToCredential(v: Value, path: seq<Turn>, i: nat)
    requires i < |path|
  {
    var found := Find(v, path[..i + 1]);
    path[i].Key? && found.Some? && IsCredential(path[i].key, found.value)
  }

  /** What a path found is still found after the scrubbing exactly when no key on it, however deep, leads
      to a credential. */
  lemma DeepAfterScrub(v: Value, path: seq<Turn>)
    requires IsDocument(v) && Find(v, path).Some?
    ensures Find(Scrubbed(v), path).Some? <==> forall i :: 0 <= i < |path| ==> !LeadsToCredential(v, path, i)
  {
    FoundAfterScrub(v, path);
    KeptWays(v, path);
    hide LeadsToCredential, Find, WayIsKept;
  }

  lemma {:induction false} KeptWays(v: Value, path: seq<Turn>)
    requires Find(v, path).Some?
    ensures WayIsKept(v, path) <==> forall i :: 0 <= i < |path| ==> !LeadsToCredential(v, path, i)
    decreases |path|
  {
    if path != [] {
      var next, rest := Step(v, path[0]).value, path[1..];
      KeptWays(next, rest);
      hide IsCredential, IsSecret, Step;
      if path[0].Key? {
        SecretsAreCredentials(Member(path[0].key, next));
      }
      assert LeadsToCredential(v, path, 0) <==> path[0].Key? && IsCredential(path[0].key, next) by {
        assert path[..1][1..] == [] && path[..1][0] == path[0] && Find(next, []) == Some(next);
      }
      forall i | 1 <= i < |path| ensures LeadsToCredential(v, path, i) <==> LeadsToCredential(next, rest, i - 1) {
        assert path[..i + 1][1..] == rest[..i] && path[..i + 1][0] == path[0];
      }
      assert WayIsKept(v, path) <==> !LeadsToCredential(v, path, 0) && WayIsKept(next, rest);
      hide LeadsToCredential, Find, WayIsKept;
      assert forall i :: 0 <= i < |rest| ==> LeadsToCredential(v, path, i + 1) == LeadsToCredential(next, rest, i);
    }
  }
}
