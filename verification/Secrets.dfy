/** Which property names and which values carry a credential (`crates/catalog/src/secret.rs`). */
module Secrets {
  import opened Text

  const MARKERS: seq<string> :=
    ["password", "secret", "token", "privatekey", "apikey", "sshkey", "publickey", "credential", "passphrase",
     "accessinformation", "cookie", "authorization", "certificate", "licensekey", "accesskey", "encryptionkey",
     "cloudinit", "sysprep", "unattend", "userdata"]

  const SUFFIXES: seq<string> := ["script"]

  /** Names a marker matches by accident. */
  const KEEP: seq<string> :=
    ["hasprivatekey", "shouldvalidateadcredential", "isforceresetpasswordenabled", "bucketsaccesskeys",
     "claimtokenextid", "accesskeyname", "apicredentialstatus", "credentialissuer", "authorizationpolicytype"]

  /** The one property dropped whole, by its exact name. */
  const OPAQUE_KEY := "guestCustomization"

  predicate IsSecretName(name: string) {
    var lower := LowerCase(name);
    lower !in KEEP &&
    ((exists i :: 0 <= i < |MARKERS| && Contains(lower, MARKERS[i])) ||
     (exists i :: 0 <= i < |SUFFIXES| && EndsWith(lower, SUFFIXES[i])))
  }

  predicate IsKeyMaterial(s: string) {
    || StartsWith(s, "ssh-") || StartsWith(s, "ecdsa-") || StartsWith(s, "sk-") || StartsWith(s, "-----BEGIN")
    || |Utf8(s)| > 100
  }
}
