# Verified model of the OpenRadiusWeb cores

OpenRadiusWeb is a network access controller around FreeRADIUS: a gateway with logins, a RADIUS
change-of-authorization client, a secret vault, a daemon that turns database rows into FreeRADIUS
configuration files, certificate management, device whitelists, and a policy evaluator. This project
models the parts of it that carry state, codecs or protocols, and proves what they guarantee.
`dafny verify dfyconfig.toml` checks everything.

Code that works step by step is a class or method whose contract ties it to a function of the old
state; the theorems are about those functions, over all inputs and all runs.

| Files | Subject |
|---|---|
| `Redis`, `LoginThrottle`, `LoginOutcomes`, `LoginInterleaving` | login rate limit and lockout: sliding-window bounds, their tightness, and what survives when Redis commands interleave |
| `Bytes`, `RadiusPacket`, `RadiusWire` | the RADIUS packet printer and its tolerant parser (sections 3 and 5 of RFC 2865, section 2.3 of RFC 5176) |
| `Base64Url`, `Vault`, `VaultForms` | the versioned secret blob and its base64url text (section 5 of RFC 4648) |
| `SecretTable`, `KeyRotation`, `SecretMigration`, `RotationOutcomes` | rewriting tables under a new key, or from plaintext, with interrupted and repeated runs |
| `Substring`, `ConfigFiles`, `ConfigReconciler`, `ConfigSteps`, `ConfigConvergence`, `ConfigInStep`, `ConfigRecords`, `CertFilesHash`, `CertFilesInputs`, `ProxyConfig` | the FreeRADIUS configuration reconciler: hash cache, disk, table, SIGHUP |
| `Certificates`, `CertificateLaws`, `CertificateOutcomes` | certificate activation, deletion and automatic renewal |
| `MacAddress`, `CsvRow`, `CsvPreview`, `MabDevices`, `MabForms` | CSV rows, the import preview, bulk import and export of MAB devices |
| `Substitution`, `UrlMask`, `UrlForms` | masking passwords in database URLs |
| `DedupCache` | the passive monitor's pruned memory of reported addresses |
| `PolicyEvaluator`, `PolicyOperators` | policy conditions, in the two identical copies of the evaluator |

What the proofs found about the code:

- The login limits are 20 a minute and 5 failures, but fixed windows let 39 attempts and 8 failures
  into one sliding window, and no more; both numbers are reached.
- With K concurrent logins a failure counter stays within 4 + K until the first lock it armed lapses.
  Over all runs it is bounded exactly when K is at most 1: with two, one delayed `EXPIRE`
  removes every bound.
- `add_tunnel_vlan` sends the number divided by 256 in its two tagged integers.
- The rotation script says that rows managed before a mid-table error are committed. Its `with conn:`
  block rolls them back; the model follows the code.
- A failed file write and a failed reload of FreeRADIUS are never tried again while the source stays
  the same: the error branch stores the new hash, and the next pass reports "unchanged". A generation
  error after new certificates were written leaves the server on the old ones. A connection that fails
  while a file's hash is read ends the pass without a signal; if the remaining files were current, what
  the pass had written is never loaded. The exact conditions are proved.
- A save that fails after new certificates were written leaves the old hash over them, as a partial
  write does.
- Export, delete and re-import of MAB devices is documented as safe, but the file does not carry the
  enabled flag: a device that was disabled comes back enabled.
- A failed publish after a renewal is reported as an error although the new certificate is active.
- `mask_db_url` promises to leave URLs without a password alone. A port followed by an `@` later in
  the path is read as a password and masked; which URLs are left alone is proved exactly.
- `equals` in policies is transitive through exactly the values that do not normalise to a boolean; so
  the text `"1"` equals every number but zero, and two that differ.
- `between` is not "at least the low end and at most the high end": a missing end is no number to it,
  and 0 to the other two.
- A number too large for a float raises out of a policy comparison; only two other kinds of error are
  caught there.
- A realm of type reject refers to a pool that the generated proxy configuration does not declare.
- Before the migration the services read nothing from a plaintext column: decryption refuses it.

## Model

| member | source | states |
|---|---|---|
| Redis.KeysNeverCollide | services/gateway/features/auth/service.py:44-72 | the three key texts built from addresses and user names are distinct for distinct keys, so a user name cannot reach another user's key |
| Redis.Server.Incr | services/gateway/features/auth/service.py:46-46 | increments a live counter or starts one at 1 without an expiry; an existing expiry is kept |
| Redis.Server.Expire | services/gateway/features/auth/service.py:48-48 | sets the expiry of a live key and does nothing to an absent one |
| Redis.Server.Exists | services/gateway/features/auth/service.py:54-54 | says whether the key is live, changing nothing |
| Redis.Server.SetEx | services/gateway/features/auth/service.py:67-67 | stores a lock whose expiry starts now |
| Redis.Server.Delete | services/gateway/features/auth/service.py:72-72 | removes two keys and no other |
| LoginThrottle.CheckIpRate | services/gateway/features/auth/service.py:44-50 | refuses from the 21st attempt of the window, counts refused attempts too, and only the first arms the expiry |
| LoginThrottle.CheckLockout | services/gateway/features/auth/service.py:53-57 | refuses exactly while the lock is live and changes nothing |
| LoginThrottle.RecordFailedLogin | services/gateway/features/auth/service.py:60-68 | returns the new count; the first failure arms the expiry, from the fifth on the lock is set anew |
| LoginThrottle.ClearLoginFailures | services/gateway/features/auth/service.py:71-72 | removes the user's counter and lock and nothing else |
| LoginThrottle.Login | services/gateway/features/auth/service.py:75-118 | the whole login as a step on the store: address check, lock check, password, then failure or clearing |
| LoginThrottle.LockoutInvariantKept | services/gateway/features/auth/service.py:53-72 | with atomic logins an unlocked user's live counter is at most 4, and no lock expires before the counter that armed it |
| LoginThrottle.LockoutSlidingWindow | services/gateway/features/auth/service.py:36-118 | over every run, any half-open 900 s without a login of that user holds at most 8 of its failed password checks |
| LoginThrottle.LockoutWindowTight | services/gateway/features/auth/service.py:36-118 | a run from an empty store with 8 failed checks in one such interval |
| LoginThrottle.FifthRefusalLocks | services/gateway/features/auth/service.py:66-67 | from the fifth failure the user is locked for the full 900 s |
| LoginThrottle.LockHolds | services/gateway/features/auth/service.py:53-57 | until the lock lapses no attempt of that user has its password checked, right or wrong, whatever else happens |
| LoginThrottle.RateSlidingWindow | services/gateway/features/auth/service.py:34-50 | over every run, any half-open 60 s admits at most 39 attempts of one address past the rate check |
| LoginThrottle.RateWindowTight | services/gateway/features/auth/service.py:34-50 | a run that has 39 admitted in one such interval |
| LoginThrottle.RateInvariantKept | services/gateway/features/auth/service.py:44-50 | a live address counter always has an expiry within 60 s |
| LoginOutcomes.AnswersExactly | services/gateway/features/auth/service.py:75-118 | which of the four answers a login gets, exactly: the address count first, then the lock, then whether the account exists, is enabled and has that password |
| LoginOutcomes.CountsItsAddress | services/gateway/features/auth/service.py:44-50 | every login, whatever its answer, adds one to its address and touches no key of another address or user |
| LoginOutcomes.RefusedEarlyLeavesUser | services/gateway/features/auth/service.py:44-57 | a login refused for its address or its lock leaves the user's counter and lock as they were |
| LoginOutcomes.LoginClears | services/gateway/features/auth/service.py:105-105 | after a successful login the user has neither a counter nor a lock |
| LoginOutcomes.RefusalCounts | services/gateway/features/auth/service.py:60-68 | a refused password stores its number, keeps the expiry of a running count, and from the fifth locks for 900 s from then |
| LoginOutcomes.NumberedSinceLogin | services/gateway/features/auth/service.py:60-118 | along every run, the number in a refusal after a login counts the refusals since that login: exactly for the 900 s after it, and never more later |
| LoginInterleaving.BoundedWhileLocksLast | services/gateway/features/auth/service.py:53-68 | with K logins interleaved command by command and no success, a counter stays within 4 + K from its creation until the first lock it arms lapses, whatever locks older counters left |
| LoginInterleaving.DisciplinedKept | services/gateway/features/auth/service.py:53-68 | each command keeps that only the login that created a counter can owe its expiry, and that a lock outlives the counter |
| LoginInterleaving.InterleavedBound | services/gateway/features/auth/service.py:53-68 | past that point, too, the bound 4 + K holds over every interleaving that sets no lock while an EXPIRE is still to be sent |
| LoginInterleaving.StalledExpireUnbounded | services/gateway/features/auth/service.py:63-67 | with any K of at least 2 there is a run that brings the counter to any number: the expiry comes after the lock |
| LoginInterleaving.BoundExactly | services/gateway/features/auth/service.py:53-68 | over all runs without a login the bound 4 + K holds if and only if K is at most 1, and from 2 on no bound holds |
| LoginInterleaving.UninterruptedIsLogin | services/gateway/features/auth/service.py:53-118 | the commands of one login, sent without interruption, are the atomic login |
| RadiusPacket.RadiusPacket.AddString | services/auth/coa_manager.py:146-148 | appends the octets under the type |
| RadiusPacket.RadiusPacket.AddInteger | services/auth/coa_manager.py:150-152 | appends the value as four octets, or refuses one that does not fit and appends nothing |
| RadiusPacket.RadiusPacket.AddIpv4 | services/auth/coa_manager.py:154-157 | appends the parts as octets, or refuses a part that is none and appends nothing |
| RadiusPacket.RadiusPacket.AddTunnelVlan | services/auth/coa_manager.py:159-173 | appends the three tunnel attributes as packed and cut by the code, or refuses a tag that is no octet |
| RadiusPacket.RadiusPacket.AddCiscoAvpair | services/auth/coa_manager.py:175-182 | appends the vendor attribute with its inner length, or refuses one too long for that octet |
| RadiusPacket.RadiusPacket.Encode | services/auth/coa_manager.py:184-202 | succeeds exactly when every length fits, and then returns the packet with the digest over header, zeros, attributes and secret |
| RadiusPacket.RadiusPacket.Decode | services/auth/coa_manager.py:204-230 | the loop over positions finds the same attributes as the recursive reading of the octets between header and Length |
| RadiusPacket.RadiusPacket.GetAttrString | services/auth/coa_manager.py:232-237 | the first attribute of the type as text, or none exactly when there is none |
| RadiusPacket.RadiusPacket.GetErrorCause | services/auth/coa_manager.py:239-247 | the first Error-Cause of at least four octets, as a number |
| RadiusPacket.DecodeOfEncode | services/auth/coa_manager.py:184-230 | decoding an encoded packet, with any octets appended past Length, returns its code, identifier and attributes in order |
| RadiusPacket.EncodeInjective | services/auth/coa_manager.py:184-202 | two packets with the same octets have the same code, identifier and attributes, even under different secrets |
| RadiusPacket.AuthenticatorVerifies | services/auth/coa_manager.py:184-202 | the receiver's check of section 2.3 of RFC 5176 accepts what is sent |
| RadiusPacket.ParseIsMaximal | services/auth/coa_manager.py:214-228 | the attributes found, encoded again, are a prefix of the body, and no well-formed attribute starts where the loop stops |
| RadiusPacket.ParseIsUnique | services/auth/coa_manager.py:214-228 | no other attribute list has that property |
| RadiusPacket.DecodeIsTotal | services/auth/coa_manager.py:204-230 | decoding succeeds exactly from 20 octets on, for every content, with the maximal attribute list of the body |
| RadiusPacket.ErrorCauseCrosses | services/auth/coa_manager.py:239-247 | the first Error-Cause of at least four octets that is sent is the number the other side reads, with any other attributes around it |
| RadiusPacket.TunnelValueLosesLowOctet | services/auth/coa_manager.py:163-168 | the value that arrives is n / 256, and it is n exactly when n is 0; so tunnel type 13 and medium 6 never arrive (sections 3.1 and 3.2 of RFC 2868) |
| RadiusPacket.VlanIdSurvives | services/auth/coa_manager.py:170-173 | the VLAN number sent as text is read back exactly |
| RadiusWire.PacketOctets | services/auth/coa_manager.py:184-202 | code, identifier, the length of the whole, and at the offset of every attribute its type, its length and its value (section 5 of RFC 2865) |
| RadiusWire.FitsExactly | services/auth/coa_manager.py:184-202 | a packet can be sent exactly when code, identifier and types are octets, no value has more than 253, and the whole at most 65535 |
| RadiusWire.DecodeReads | services/auth/coa_manager.py:204-230 | any octets from 20 on: the header fields, and the attributes up to the announced length, which is cut at the end of the data |
| RadiusWire.VlanArrives | services/auth/coa_manager.py:159-173 | what a receiver decodes as group id, with any attributes around it: the tag, then the one decimal numeral of the VLAN |
| RadiusWire.NumeralIsDecimal | services/auth/coa_manager.py:172-172 | a number has one numeral without leading zeros, and it is the one that is sent |
| RadiusWire.CiscoAvpairOctets | services/auth/coa_manager.py:175-182 | inside the vendor attribute: vendor 9, sub-type 1, a length that counts both octets, the text |
| RadiusPacket.CoAManager.NextId | services/auth/coa_manager.py:299-302 | the next identifier, from 0 to 255 around |
| RadiusPacket.IdentifiersCycle | services/auth/coa_manager.py:299-302 | two packet identifiers coincide exactly when their positions differ by a multiple of 256 |
| Base64Url.DecodeOfEncode | shared/orw_common/secrets.py:82-84 | for all octets, decoding gives them back, with the padding and without it |
| VaultForms.GroupBits | shared/orw_common/secrets.py:141-141 | each group of letters holds the bits of its octets, highest first, and a short one is padded (section 4 of RFC 4648) |
| VaultForms.ForeignIsDropped | shared/orw_common/secrets.py:82-84 | a character of neither alphabet is dropped wherever it stands |
| VaultForms.DanglingLetterIsRefused | shared/orw_common/secrets.py:82-84 | a single letter after whole groups makes the text invalid |
| Vault.Vault.UseKey | shared/orw_common/secrets.py:87-129 | the cached key, or one derived from the environment and cached, or the error of the derivation |
| Vault.Vault.Encrypt | shared/orw_common/secrets.py:131-141 | nothing stays nothing; text becomes the base64url of version, nonce and sealed octets under the cached or newly derived key |
| Vault.Vault.Decrypt | shared/orw_common/secrets.py:143-189 | empty values pass through; the rest is decoded, checked for length and version, opened and read as text, each failure as its own error; a key is derived only for a text of the right form |
| Vault.VaultWith | scripts/rotate_secret_master.py:106-125 | the vault has the key of the given material, and the environment is restored even when derivation fails |
| Vault.DecryptOfEncrypt | shared/orw_common/secrets.py:131-213 | for every text, key and nonce: decryption inverts encryption with or without trailing padding, and the result looks encrypted |
| Vault.AcceptedIsEncrypted | shared/orw_common/secrets.py:143-213 | every non-empty text that decrypts under any key passes the structural check |
| Vault.WrongKeyFails | shared/orw_common/secrets.py:143-189 | text sealed under a key is refused under another that the cipher separates from it, as a bad tag and nothing else |
| Vault.LawsConsistent | shared/orw_common/secrets.py:120-189 | the assumptions about the cipher hold together for some cipher and any two different keys |
| VaultForms.Layout | shared/orw_common/secrets.py:138-141 | an encryption decodes to version 1, the nonce, and the plaintext sealed under key and nonce |
| VaultForms.LooksEncryptedExactly | shared/orw_common/secrets.py:196-213 | written text counts as encrypted, padded or not, exactly when it holds at least 29 octets and the first is 1 |
| VaultForms.DecryptsExactly | shared/orw_common/secrets.py:156-189 | what decryption makes of any octets: too short below 29, an unknown version unless the first is 1, then what the cipher and UTF-8 say of the rest |
| VaultForms.DerivesExactly | shared/orw_common/secrets.py:87-117 | a key is derived exactly when master and salt are given and the salt decodes to at least 8 octets, and it is the derivation of those two |
| KeyRotation.Reencrypt | scripts/rotate_secret_master.py:158-186 | the fate of one row: blank, undecryptable, failed or rotated |
| KeyRotation.RotateTable | scripts/rotate_secret_master.py:138-204 | the loop rewrites exactly the rotatable rows, not in a dry run, and rotated + skipped + failures is the row count |
| KeyRotation.Database.Rotate | scripts/rotate_secret_master.py:239-270 | one transaction per column: finished columns are committed, an interrupted one is rolled back; status 0 exactly when complete without a failure |
| KeyRotation.VaultsAreTrusted | scripts/rotate_secret_master.py:75-135 | two vaults over a sound cipher that separates their keys satisfy what the rotation theorems assume, for any passes over any columns |
| KeyRotation.RotationLosesNothing | scripts/rotate_secret_master.py:138-256 | over any sequence of complete, interrupted and dry passes with either flag, every row still opens to its secret under one of the keys and only moves from old to new, if the old key refuses the texts that are written |
| KeyRotation.OldRowsNeverGrow | scripts/rotate_secret_master.py:138-256 | the number of rows on the old key never grows |
| KeyRotation.CompletePassFinishes | scripts/rotate_secret_master.py:138-204 | after a complete pass the old vault opens a row if and only if it did before, and no nonce was drawn or the new vault refused to encrypt what was in it |
| KeyRotation.CleanExitMeansRotated | scripts/rotate_secret_master.py:239-270 | without the skip flag and without failures every value of the column was on the old key and is now on the new one |
| KeyRotation.RerunChangesNothing | scripts/rotate_secret_master.py:162-175 | a re-run over a finished column writes nothing, and fails exactly when it has a value and the skip flag is off |
| RotationOutcomes.RowWritten | scripts/rotate_secret_master.py:158-200 | exactly the rows that the old vault opens and the new one encrypts under a drawn nonce get that encryption, in committed columns of a real run |
| RotationOutcomes.ReportExactly | scripts/rotate_secret_master.py:158-204 | rotated counts those rows; the failures are the ids, in order, of rows not encrypted or not opened without the skip flag; the rest is skipped |
| RotationOutcomes.RotatedLeaveOldKey | scripts/rotate_secret_master.py:138-204 | conservation: rows on the old key before a complete pass are those after it plus those reported rotated |
| RotationOutcomes.OnePassSuffices | scripts/rotate_secret_master.py:138-204 | when every nonce is drawn and every encryption works, one complete pass leaves no row on the old key and reports all of them |
| SecretMigration.Decide | scripts/migrate_remaining_secrets_to_encrypted.py:79-104 | the fate of one row; a dry run does not try to encrypt |
| SecretMigration.MigrateOne | scripts/migrate_remaining_secrets_to_encrypted.py:66-108 | the loop encrypts exactly the rows that are not blank and do not look encrypted; the four tallies cover the rows; a dry run foretells them and writes nothing |
| SecretMigration.Database.Migrate | scripts/migrate_remaining_secrets_to_encrypted.py:145-171 | one transaction over all columns: an interrupted or dry run changes nothing; status 0 exactly when nothing failed |
| SecretMigration.VaultIsCoherent | shared/orw_common/secrets.py:131-213 | the vault and its structural check satisfy what the migration theorems assume |
| SecretMigration.MigrationLosesNothing | scripts/migrate_remaining_secrets_to_encrypted.py:66-108 | over any runs a row is as it was, or it was plaintext and now looks encrypted and decrypts to that text |
| SecretMigration.MigrationIdempotent | scripts/migrate_remaining_secrets_to_encrypted.py:66-108 | after a run without failures every value looks encrypted, and a second run encrypts, fails and changes nothing |
| RotationOutcomes.RowEncrypted | scripts/migrate_remaining_secrets_to_encrypted.py:76-104 | exactly the rows with text that does not look encrypted and can be encrypted are, in a real run that commits |
| RotationOutcomes.TallyExactly | scripts/migrate_remaining_secrets_to_encrypted.py:76-108 | the four tallies count the rows encrypted, looking encrypted, without text, and plain but not encrypted |
| RotationOutcomes.StaysPlainExactly | scripts/migrate_remaining_secrets_to_encrypted.py:76-104 | a row is plain after a committed run if and only if it was and could not be encrypted |
| ConfigFiles.GeneratedTypesDistinct | services/auth/freeradius_config_manager.py:868-883 | the substring tests give different types to different generated files, and none is the certificates' |
| ConfigReconciler.ConfigManager.GetDefaultTenantId | services/auth/freeradius_config_manager.py:991-1021 | the cached id, or a lookup that raises, fails softly to none, or is cached |
| ConfigReconciler.ConfigManager.GetStoredHash | services/auth/freeradius_config_manager.py:1023-1062 | the hash of the first row under the tenant found, none on a failed query |
| ConfigReconciler.ConfigManager.SaveConfigState | services/auth/freeradius_config_manager.py:1064-1118 | upserts the row; a failed query leaves the table, a failed connection raises |
| ConfigReconciler.ConfigManager.ApplyCertificates | services/auth/freeradius_config_manager.py:834-861 | the certificate step never raises: every failure becomes an error entry, with whatever was written left on disk |
| ConfigReconciler.ConfigManager.ApplyFile | services/auth/freeradius_config_manager.py:864-939 | one file: skipped on an equal hash, written and recorded, or recorded as an error under the new hash |
| ConfigReconciler.ConfigManager.ApplyConfigs | services/auth/freeradius_config_manager.py:815-941 | certificates, generation with its early return, then the files in order; the loop stops where a call raises |
| ConfigReconciler.Watcher.ApplyAndReload | services/auth/freeradius_config_watcher.py:131-195 | SIGHUP exactly when the report has an applied entry; a raised pass or a generation error sends none |
| ConfigSteps.UpsertCounts | services/auth/freeradius_config_manager.py:1083-1111 | a save replaces the row of its key or adds one; under a NULL tenant it always adds one |
| ConfigConvergence.PassKeepsUnique | services/auth/freeradius_config_manager.py:1064-1118 | whatever fails in a pass, no two rows share type, name and tenant |
| ConfigSteps.FindAfterUpsert | services/auth/freeradius_config_manager.py:1023-1118 | a lookup after a save finds the saved hash under its key and the old ones elsewhere |
| ConfigConvergence.RunKeepsAgreement | services/auth/freeradius_config_manager.py:815-941 | along any run whose writes and saves work, over changing sources, each stored hash is the hash of the file on disk and each key has one row |
| ConfigConvergence.FileAgreesExactly | services/auth/freeradius_config_manager.py:885-939 | whatever reads, writes, saves and error saves do, a file step keeps that agreement if and only if its read raises or finds the current hash, or what is left on disk is what the row then stands for |
| ConfigConvergence.CertsAgreeExactly | services/auth/freeradius_config_manager.py:834-861 | the certificate half, whatever reads, writes and saves do: the step keeps the agreement if and only if it writes nothing, or its save goes through under the tenant, or what it wrote differs on no file of the old set |
| ConfigConvergence.UnchangedMeansHeld | services/auth/freeradius_config_manager.py:893-902 | a file reported unchanged already holds the generated content |
| ConfigConvergence.GoodPassLeavesSource | services/auth/freeradius_config_manager.py:815-941 | a pass that reports, with writes and saves working, leaves every file as generated, and the certificates unless their step is reported failed |
| ConfigConvergence.PassReconciles | services/auth/freeradius_config_manager.py:815-941 | one pass with the database working stores every current hash, even where file writes fail |
| ConfigConvergence.RunIsFixpoint | services/auth/freeradius_config_watcher.py:131-195 | from there any number of passes on the same source write nothing, save nothing, skip SIGHUP and leave the server as it runs |
| ConfigInStep.ChangeIsReported | services/auth/freeradius_config_manager.py:815-941 | a pass past generation, when no call raises and failed writes leave nothing, reports an applied entry whenever it changed the disk; no later entry overwrites it |
| ConfigConvergence.FailedReloadSticks | services/auth/freeradius_config_watcher.py:171-181 | after a failed reload the server keeps its old configuration through any number of later passes |
| ConfigConvergence.FailedWriteSticks | services/auth/freeradius_config_manager.py:922-939 | after a failed write the file stays as the failure left it through any number of later passes |
| ConfigConvergence.RaisedPass | services/auth/freeradius_config_manager.py:886-894 | a pass whose connection fails at one file's hash, outside the try block, signals nothing although earlier files were written; every stored hash is then current exactly when those of the remaining files were |
| ConfigConvergence.RaisedPassSticks | services/auth/freeradius_config_watcher.py:131-195 | in that case the server is never signalled for what was written, through any number of later passes on the source |
| ConfigConvergence.RaisedPassLosesStep | services/auth/freeradius_config_watcher.py:185-195 | so a server in step runs the old content of a file that was written and recorded before the raise, for good |
| ConfigInStep.WorkingPassHealsExactly | services/auth/freeradius_config_watcher.py:131-195 | a pass in which everything works brings a server into step if and only if it was in step or some stored hash is not current |
| ConfigSteps.FileStepOutcome | services/auth/freeradius_config_manager.py:864-939 | which calls make a file step raise, and which make it report "applied", exactly |
| ConfigInStep.PassEndsExactly | services/auth/freeradius_config_manager.py:829-941 | a pass past generation reports exactly when no file step raises, and has an applied entry exactly when moreover certificates or a file were written and saved |
| ConfigSteps.FileStepLeavesDisk | services/auth/freeradius_config_manager.py:864-939 | a file step leaves the disk as it is if and only if its read raises or finds the current hash, or what it leaves of the file is what was there |
| ConfigSteps.CertStepLeavesDisk | services/auth/freeradius_config_manager.py:834-861 | the certificate step overwrites the files it comes to, all or those before its failure, whatever its save does |
| ConfigInStep.DiskKeptExactly | services/auth/freeradius_config_manager.py:815-941 | a pass leaves the disk as it is if and only if neither the certificate step nor a file step that it comes to writes anything that was not there; no step undoes another's change |
| ConfigInStep.InStepExactly | services/auth/freeradius_config_watcher.py:131-195 | from a server in step with the disk, whatever the calls do: it is in step after a pass if and only if the pass writes nothing new, or generation worked, no file step raised, something was applied and the reload worked |
| ConfigInStep.CleanKeepsStep | services/auth/freeradius_config_watcher.py:131-195 | in particular when no call raises, failed writes leave nothing, and generation and reload work |
| ConfigInStep.RunStaysInStep | services/auth/freeradius_config_watcher.py:131-195 | along any run over changing sources the server is always in step if and only if every pass meets that condition |
| ConfigRecords.RecordExactly | services/auth/freeradius_config_manager.py:864-939 | the row of a file after its step, status included: as before, or the new hash as applied when file and row were written, else as failed |
| ConfigRecords.ReportExactly | services/auth/freeradius_config_manager.py:829-941 | what a report says of the certificates and of every file under its type: unchanged, applied or failed, by the calls of its own step |
| ConfigRecords.SignalExactly | services/auth/freeradius_config_watcher.py:131-195 | the server is signalled if and only if generation worked, no file step raised and something was applied; it then runs the disk if and only if the signal worked |
| CertFilesHash.FilesHashIgnoresOrder | services/auth/freeradius_config_manager.py:951-982 | the order in which rows are returned does not reach the hash when type and name tell certificates apart and names tell servers apart |
| CertFilesHash.OrderIsLostExactly | services/auth/freeradius_config_manager.py:970-980 | sorting forgets the order of any rows if and only if no two different ones share a key, as two tenants' may |
| CertFilesHash.SharedKeyShowsOrder | services/auth/freeradius_config_manager.py:970-980 | two rows sort independently of their order exactly when their keys differ or they are equal |
| CertFilesInputs.FilesHashExactly | services/auth/freeradius_config_manager.py:951-982 | with a hash that tells texts apart and texts without the separator: two sets of files have one hash if and only if certificates and servers are the same, in whatever order |
| CertFilesInputs.SeparatorInTextCollides | services/auth/freeradius_config_manager.py:979-980 | a separator inside a text makes two different certificates join to one text |
| ProxyConfig.GenerateProxyConfig | services/auth/freeradius_config_manager.py:441-554 | the blocks in order: home server and pool of each proxy realm, a block for each realm by its type, the default realms if none is given |
| ProxyConfig.AllDeclaredExactly | services/auth/freeradius_config_manager.py:466-534 | every pool a realm refers to is declared if and only if no realm is of type reject, whose `auth_pool` names a pool that nothing declares |
| ProxyConfig.PoolsDifferExactly | services/auth/freeradius_config_manager.py:466-496 | no pool is declared twice if and only if the proxy realms' names stay different as identifiers |
| ProxyConfig.RealmBlocksExactly | services/auth/freeradius_config_manager.py:498-554 | the realm blocks are those that some realm asks for by its type, pool and strip flag, and the two default ones if and only if no realm is a default itself |
| ProxyConfig.DeclarationsExactly | services/auth/freeradius_config_manager.py:466-496 | home servers are those of proxy realms, each followed by its pool, and every pool stands behind its server |
| Certificates.SplitSan | services/gateway/features/certificates/service.py:273-288 | the loop puts addresses and other names, in order, into two lists; a missing list gives two empty ones |
| Certificates.Registry.InsertCert | services/gateway/features/certificates/repository.py:187-256 | refuses a taken id or (name, tenant); a new row is inactive and enabled |
| Certificates.Registry.DeactivateCertsOfType | services/gateway/features/certificates/repository.py:259-268 | clears the active flag of every row of the tenant and type |
| Certificates.Registry.SetCertActive | services/gateway/features/certificates/repository.py:271-281 | sets the active flag of the row with the id in the tenant |
| Certificates.Registry.GenerateServer | services/gateway/features/certificates/service.py:146-191 | needs an active CA and a signature, then inserts the certificate with its names and whole-second times |
| Certificates.Registry.ActivateCert | services/gateway/features/certificates/service.py:229-266 | refuses an unknown id, otherwise deactivates the group and activates the row |
| Certificates.Registry.DeleteCert | services/gateway/features/certificates/service.py:363-382 | refuses an unknown id and an active row, otherwise removes the row |
| Certificates.Registry.Renew | services/gateway/features/certificates/service.py:331-355 | one candidate: request rebuilt from the row, validated, issued and activated; an error before the activation leaves the rows, a failed publish does not |
| Certificates.Registry.RenewExpiring | services/gateway/features/certificates/service.py:301-360 | one pass in its transaction; a database error poisons the rest of the pass and rolls all of it back |
| CertificateLaws.ActivationChooses | services/gateway/features/certificates/service.py:229-266 | activation leaves the chosen row the only active one of its tenant and type, and every other group as it was |
| CertificateLaws.RunKeepsOneActive | services/gateway/features/certificates/service.py:110-382 | over every sequence of committed and rolled back operations from an empty table, a tenant and type that once had an active certificate always has exactly one, and ids and names stay unique |
| CertificateLaws.OneCandidate | services/gateway/features/certificates/repository.py:98-131 | hence a renewal pass never sees more than one candidate |
| CertificateLaws.PassRenewsOne | services/gateway/features/certificates/service.py:301-360 | a pass replaces its one candidate or changes no row; it changes rows and reports an error if and only if the request is valid, there is an active CA, id and name are free, and only the publish fails |
| CertificateLaws.RenewsExactly | services/gateway/features/certificates/service.py:331-360 | the renewal of a candidate succeeds if and only if there is an active CA, nothing outside fails, and id and name are free |
| CertificateLaws.RunKeepsRenewable | services/gateway/features/certificates/service.py:334-350 | in every reachable table, each server certificate the service issued passes the validation of its own renewal request |
| CertificateLaws.RenewalAcceptedExactly | services/gateway/features/certificates/service.py:334-350 | a renewal request is valid exactly within the bounds on subject, validity and key size; the derived name always fits |
| CertificateLaws.ChainPreserves | services/gateway/features/certificates/service.py:273-350 | through any number of renewals: subject, key size, validity and the multiset of names stay, the stored list is fixed from the first on, names fit 255 and end in the date |
| CertificateLaws.SplitTwice | services/gateway/features/certificates/service.py:173-288 | splitting, joining and splitting again gives the same two lists and loses no name |
| CertificateLaws.SameDayNameClashes | services/gateway/features/certificates/service.py:291-298 | renewing a renewed name on the same day gives the same name exactly when the original had at least 238 characters |
| CertificateLaws.RenewalDatesDiffer | services/gateway/features/certificates/service.py:291-298 | names derived on different days always differ |
| CertificateLaws.NextPassExactly | services/gateway/features/certificates/repository.py:115-131 | a later pass finds nothing if and only if the validity, from the whole second of signing, reaches past the threshold |
| CertificateLaws.SameInstantExactly | services/gateway/features/certificates/repository.py:115-131 | at the instant of the renewal that holds for a validity above the threshold, and for an equal one only on a whole second |
| CertificateOutcomes.InsertsExactly | services/gateway/features/certificates/repository.py:187-256 | a row goes in, last, inactive and enabled, exactly when no row has its id or its name in its tenant |
| CertificateOutcomes.IssuesExactly | services/gateway/features/certificates/service.py:146-191 | a server certificate is issued exactly when the tenant has an active CA, signing and database work, and id and name are free; its row says what was asked for, from the whole second of signing |
| CertificateOutcomes.DeletesExactly | services/gateway/features/certificates/service.py:363-382 | a deletion succeeds if and only if the tenant has an inactive row with that id; then no row has it, every other row is there, and the table is one shorter |
| CertificateOutcomes.DeletionRemoves | services/gateway/features/certificates/service.py:363-382 | the other rows stand unchanged in their order; an active row is refused |
| CertificateOutcomes.DeletionFreesName | services/gateway/features/certificates/service.py:363-382 | the name is taken until the deletion, and a new certificate with it goes in afterwards |
| CertificateOutcomes.CandidatesExactly | services/gateway/features/certificates/repository.py:98-131 | a pass takes up exactly the tenant's own active, enabled server certificates that end within the days and were not imported |
| CertificateOutcomes.ValidityExactly | services/gateway/features/certificates/service.py:338-343 | the whole days between the two dates, at least one; 730 without dates |
| CertificateOutcomes.SplitInOrder | services/gateway/features/certificates/service.py:273-288 | each of the two lists keeps the order of the stored one |
| CertificateOutcomes.PassReports | services/gateway/features/certificates/service.py:301-360 | a pass reports how many rows it took up, and the derived name of the one it renewed or one error |
| MacAddress.NormalFormExactly | services/gateway/features/mab_devices/service.py:32-37 | the fixed points of the normalisation are exactly six lower-case pairs with colons between |
| MacAddress.NormaliseIdempotent | frontend/src/pages/radius/MabDevices.tsx:54-58 | normalising a normal form changes nothing |
| MacAddress.NormaliseIdentifies | services/gateway/features/mab_devices/service.py:32-37 | two spellings get one form if and only if their hex digits agree up to case |
| MabForms.NormaliseExactly | services/gateway/features/mab_devices/service.py:32-37 | an address is normalised exactly when it has twelve hex digits, and the form has those digits, value by value |
| CsvRow.SplitRow | frontend/src/pages/radius/MabDevices.tsx:75-93 | the loop with its skip over doubled quotes returns the trimmed fields of the recursive reading |
| CsvRow.SplitOfPrint | frontend/src/pages/radius/MabDevices.tsx:75-93 | splitting a row written as section 2 of RFC 4180 says returns its fields, for all texts and any further quoting |
| CsvRow.UnquotedExactly | frontend/src/pages/radius/MabDevices.tsx:75-93 | an unquoted text is read as itself if and only if it has neither comma nor quote |
| CsvRow.SplitPrintSplit | frontend/src/pages/radius/MabDevices.tsx:75-93 | the fields of any row, written again, are read as the same fields |
| MabForms.TrimExactly | frontend/src/pages/radius/MabDevices.tsx:92-92 | trimming takes away the white space on both sides and nothing else |
| CsvPreview.ReadRow | frontend/src/pages/radius/MabDevices.tsx:109-132 | one preview row: visible cells under known columns, the address normalised or refused, then the VLAN checked |
| CsvPreview.ParseCsv | frontend/src/pages/radius/MabDevices.tsx:67-135 | an empty file and a missing address column are errors of the whole; otherwise one numbered row for every later non-blank line |
| CsvPreview.LinesOfFile | frontend/src/pages/radius/MabDevices.tsx:68-68 | the non-blank lines of a written file are its rows |
| CsvPreview.PreviewOfFile | frontend/src/pages/radius/MabDevices.tsx:67-135 | the preview of a written file shows every record in order, each visible cell under its column, under any legal quoting |
| MabForms.LineEnds | frontend/src/pages/radius/MabDevices.tsx:68-68 | a line feed ends a line, with or without a carriage return before it |
| MabForms.ColumnFound | frontend/src/pages/radius/MabDevices.tsx:71-118 | a cell is found under its header in any letter case and with any white space around it; the first column of a name counts |
| MabForms.RowErrors | frontend/src/pages/radius/MabDevices.tsx:109-132 | a preview row's error, exactly: no address, one without twelve digits, or a VLAN that is no number from 1 to 4094 |
| MabDevices.Whitelist.BulkInsert | services/gateway/features/mab_devices/repository.py:205-247 | inserts an enabled row, or skips an address the tenant already has, and says which |
| MabDevices.Whitelist.BulkImport | services/gateway/features/mab_devices/service.py:200-237 | created is the growth of the table, and created + skipped is the number of items |
| MabDevices.ImportAppends | services/gateway/features/mab_devices/service.py:200-237 | rows that were there stay, unchanged and in place |
| MabDevices.ImportHolds | services/gateway/features/mab_devices/service.py:200-237 | an address is listed afterwards if and only if it was before or the items offer it, in that tenant only |
| MabDevices.FirstOfferWins | services/gateway/features/mab_devices/repository.py:205-247 | a new address gets the first item that offers it |
| MabDevices.CreatesNothingExactly | services/gateway/features/mab_devices/service.py:200-237 | an import creates nothing if and only if every address is already listed |
| MabDevices.ReimportCreatesNothing | services/gateway/features/mab_devices/service.py:200-237 | importing the same items again creates nothing |
| MabDevices.ParseBulkItems | services/gateway/features/mab_devices/service.py:255-311 | a file without a header or without the address column is refused as a whole; otherwise every record is skipped as blank, an item, or an error with its row number, in order |
| MabDevices.Whitelist.ImportCsv | services/gateway/features/mab_devices/service.py:314-338 | the valid items are imported whatever else is wrong, and the problems returned with the counts |
| MabDevices.RecordsAccounted | services/gateway/features/mab_devices/service.py:255-311 | items and errors together are exactly the records with a visible text |
| MabForms.ValidatedExactly | services/gateway/features/mab_devices/service.py:255-311 | a record is taken if and only if its address, its VLAN from 1 to 4094 and its date all read, the last two also when left out; and what the item holds |
| MabForms.LastColumnCounts | services/gateway/features/mab_devices/service.py:284-290 | of two columns whose names fold alike the later one counts |
| MabForms.ErrorRows | services/gateway/features/mab_devices/service.py:274-311 | errors name exactly the refused records, by row with the header as 1 and blank rows counted |
| MabDevices.ReimportSkipsAll | services/gateway/features/mab_devices/service.py:314-370 | export and import into the same table: no error, every row skipped, nothing changed |
| MabDevices.ExportRestores | services/gateway/features/mab_devices/service.py:314-370 | export, delete and import: every row comes back in order, enabled, but for white space around its texts; the rows are as they were if and only if every device was enabled |
| MabDevices.ImportedAreEnabled | services/gateway/features/mab_devices/repository.py:205-247 | every row that an import adds is enabled, in the importing tenant |
| MabDevices.ExportPreviewsClean | services/gateway/features/mab_devices/service.py:341-370 | the preview of an exported file shows every device under its address without an error |
| Substitution.MaskIsJoin | shared/orw_common/db_url_safe.py:58-64 | the masked text is the scanned text with the passwords of the matches replaced and nothing else |
| Substitution.UnchangedExactly | shared/orw_common/db_url_safe.py:40-64 | a text is left alone if and only if every password the scan sees is stars already |
| UrlMask.OneReading | shared/orw_common/db_url_safe.py:33-37 | however the expression's groups can be read at a start, the deterministic reader finds that match: there is only one |
| UrlMask.ReadingOfMatch | shared/orw_common/db_url_safe.py:33-37 | every match of the reader is one of the expression |
| UrlMask.UrlsKeepTheirMatches | shared/orw_common/db_url_safe.py:33-37 | starring a password keeps its match, and makes no match at any earlier start |
| UrlMask.MaskTwice | shared/orw_common/db_url_safe.py:40-64 | masking is idempotent, for every text and any number of URLs in it |
| UrlMask.MaskedMatches | shared/orw_common/db_url_safe.py:91-104 | the scan of the result sees the same matches with starred passwords and the same text around them |
| UrlMask.NoPasswordLeft | shared/orw_common/db_url_safe.py:91-104 | every match anywhere in the result, also where the scan does not look, has stars for its password |
| UrlMask.PortReadAsPassword | shared/orw_common/db_url_safe.py:33-37 | after any scheme and host a port is read as a password once an `@` follows, whatever comes before and after |
| UrlMask.AnyTextLeftAloneExactly | shared/orw_common/db_url_safe.py:33-64 | any text is left alone if and only if every reading of the expression in it, wherever it starts, has stars for its password |
| UrlMask.NoSlashesCopied | shared/orw_common/db_url_safe.py:33-37 | a text without `//` is left alone |
| UrlMask.LeftAloneExactly | shared/orw_common/db_url_safe.py:40-64 | a URL is left alone if and only if, when what follows its scheme does not read as `user:password@`, that is left alone, and when it does, the password is stars and the rest is left alone |
| UrlMask.PortLeftAloneExactly | shared/orw_common/db_url_safe.py:43-44 | the same after a host and a colon, by the password characters that follow and the `@` after them |
| UrlMask.PortLeftAloneOnce | shared/orw_common/db_url_safe.py:43-44 | so with no other `//`: if and only if the colon is followed by no password characters, or by no `@` after them, or by stars |
| UrlForms.CredentialsAreMasked | shared/orw_common/db_url_safe.py:33-64 | any scheme, user and password of the expression's characters: the password becomes stars, and the rest is masked on its own |
| UrlForms.NoUserNoMatch | shared/orw_common/db_url_safe.py:34-35 | a slash, question mark, number sign, `@` or white space before the colon: no match starts at the scheme |
| UrlForms.NoPasswordNoMatch | shared/orw_common/db_url_safe.py:36-37 | white space or the end before the `@`, or nothing before it: no match |
| UrlForms.NoSchemeNoMatch | shared/orw_common/db_url_safe.py:34-34 | no match starts without a letter, or with another character than a scheme's before the colon |
| DedupCache.PassiveMonitor.ShouldReport | services/discovery/passive_monitor.py:120-136 | reports unless the address was reported less than 60 s ago; past 10000 entries those of two minutes and more are dropped |
| DedupCache.PruningIsInvisible | services/discovery/passive_monitor.py:120-136 | for every nondecreasing run the answers are those of a map that is never pruned |
| DedupCache.SuppressedExactly | services/discovery/passive_monitor.py:120-136 | a sighting is suppressed if and only if its address was reported less than 60 s before |
| DedupCache.ReportsApart | services/discovery/passive_monitor.py:120-136 | two reports of one address are at least 60 s apart |
| DedupCache.SizeIsBounded | services/discovery/passive_monitor.py:128-134 | past 10000 entries the map holds only addresses reported within two minutes of its last report |
| DedupCache.KeepsAllUpToTheLimit | services/discovery/passive_monitor.py:120-136 | below 10000 entries nothing is forgotten: a sighting within 60 s changes nothing, any other stores its time |
| PolicyEvaluator.FollowPath | shared/orw_common/policy_evaluator.py:119-127 | the loop follows a dotted path through nested dicts or answers none |
| PolicyEvaluator.Evaluate | shared/orw_common/policy_evaluator.py:20-37 | the early exit, entry by entry; anything but a dict is passed over |
| PolicyEvaluator.EvaluateWithDetails | shared/orw_common/policy_evaluator.py:39-67 | the flag is the conjunction of all entries, with one detail for each condition; it raises if any comparison does |
| PolicyEvaluator.VerdictIsConjunction | shared/orw_common/policy_evaluator.py:20-37 | the early exit answers true if all entries hold, false if one fails before any raises, and raises otherwise |
| PolicyEvaluator.AgreeExactly | services/policy_engine/evaluator.py:52-106 | the two evaluations agree if and only if it is not the case that one entry raises and another fails before anything raises |
| PolicyEvaluator.OrderIsImmaterial | shared/orw_common/policy_evaluator.py:20-37 | permuting the conditions does not change the answer when none raises |
| PolicyEvaluator.VerdictOfConcat | services/policy_engine/evaluator.py:52-70 | conditions in sequence are a conjunction: the second list counts only if the first holds |
| PolicyEvaluator.NegationsAreComplements | shared/orw_common/policy_evaluator.py:144-197 | each negated operator is the exact complement of its positive form, on all values |
| PolicyEvaluator.NegatedNamesAreComplements | services/policy_engine/evaluator.py:202-276 | the same by operator name: not_equals, ne and != against equals, eq and ==, not_in, not_contains, not_exists, is_not_empty |
| PolicyEvaluator.OrderComplementExactly | shared/orw_common/policy_evaluator.py:171-178 | gt and lte are complements if and only if both sides are numbers; they raise on the same values |
| PolicyEvaluator.RaisesExactly | shared/orw_common/policy_evaluator.py:149-210 | which comparisons raise: a bad pattern that is searched, and a conversion that is reached and overflows, which the except clause does not catch |
| PolicyEvaluator.RealEvaluationsAgree | shared/orw_common/policy_evaluator.py:20-67 | with the code's own fields and comparisons, patterns valid and numbers in range: both evaluations are the conjunction, in any order of the conditions |
| PolicyEvaluator.EqualsIsSymmetric | services/policy_engine/evaluator.py:292-317 | equals reads the same from both sides |
| PolicyEvaluator.EqualsTrueExactly | shared/orw_common/policy_evaluator.py:212-237 | a value equals true exactly when its normalised form is truthy |
| PolicyEvaluator.TransitiveExactly | shared/orw_common/policy_evaluator.py:212-237 | equality passes through a value, for all values on either side, if and only if it does not normalise to a boolean |
| PolicyEvaluator.OneEqualsAnyNumber | shared/orw_common/policy_evaluator.py:212-237 | the text "1" equals every number but zero, two different ones at once |
| PolicyEvaluator.ResolveFindsProperty | shared/orw_common/policy_evaluator.py:69-127 | a dotted field that nothing else claims finds the value nested under its path |
| PolicyOperators.NumbersCompare | shared/orw_common/policy_evaluator.py:171-178 | two sides that read as numbers are compared as numbers, under every name of gt, gte, lt and lte |
| PolicyOperators.NonNumbersCompare | shared/orw_common/policy_evaluator.py:171-210 | otherwise all of them are false, or raise where an overflow is reached |
| PolicyOperators.AtLeastExactly | services/policy_engine/evaluator.py:237-248 | gte holds exactly when gt does or the numbers are equal, lte when lt does or they are |
| PolicyOperators.BetweenExactly | shared/orw_common/policy_evaluator.py:179-182 | between holds exactly for two ends that are numbers and a value from one to the other |
| PolicyOperators.BetweenIsBothExactly | shared/orw_common/policy_evaluator.py:173-182 | between is gte of the low and lte of the high end if and only if neither end is missing or empty, which those two take for 0 |
| PolicyOperators.PartsExactly | shared/orw_common/policy_evaluator.py:163-170 | starts_with, ends_with and contains: the actual text is the normalised expected one with some text after, before or around it, case aside |
| PolicyOperators.RegexExactly | shared/orw_common/policy_evaluator.py:183-184 | the pattern is searched for in a value that counts as something; otherwise false, also for a bad pattern |
| PolicyOperators.OuiExactly | shared/orw_common/policy_evaluator.py:199-202 | the first eight characters agree, case aside |
| PolicyOperators.PresenceExactly | shared/orw_common/policy_evaluator.py:185-192 | exists and is_empty, in the value alone |
| PolicyOperators.InExactly | services/policy_engine/evaluator.py:215-223 | in: equal to an entry of a list, or part of the text of anything else |
| PolicyOperators.MemberOfExactly | services/policy_engine/evaluator.py:269-275 | is_member_of: a listed group is the expected one, or among the expected ones if all values are plain |
| PolicyOperators.EqualsExactly | shared/orw_common/policy_evaluator.py:212-237 | equals under each of its names: both missing, the same text case aside, the same truth, or the same value |
| PolicyOperators.UnknownNameHoldsOfNothing | shared/orw_common/policy_evaluator.py:203-205 | a name that is no operator holds of nothing |
| PolicyOperators.DocumentedFieldsResolve | services/policy_engine/evaluator.py:27-41 | the documented dotted fields find what the context holds under their keys, whatever else it holds |
| PolicyOperators.OtherFieldsResolve | shared/orw_common/policy_evaluator.py:112-127 | any other field: its key with underscores, then the clock, then the nested properties |
| PolicyOperators.DetailsExactly | shared/orw_common/policy_evaluator.py:39-67 | when nothing raises: one detail for every condition, in order, with the condition as it stands, the value found and whether it holds |
| PolicyOperators.HighRiskFromSeventy | shared/orw_common/policy_evaluator.py:262-275 | the shipped high-risk policy matches a device exactly from a score of 70 |

## Left out

- LoginInterleaving.InterleavedBound: for K of at least 2 its condition on the order of commands is sufficient; BoundExactly says that without one there is no bound.
- LoginInterleaving: a login enters at the lockout check. Its address check touches another key and is atomic up to its own EXPIRE, whose delay is not modelled.
- Redis: values are counters; the text stored with a lock is not kept, since only its presence is read.
- Vault.WrongKeyFails: assumed of the cipher for the two keys of a rotation, not for all keys, because for all 32-byte keys at once no cipher satisfies it; the rotation theorems ask it only of the texts that are written.
- MD5, AES-GCM, Argon2id, SHA-256, UTF-8 and X.509 are parameters: functions with the few laws a theorem states. A signed certificate is taken to carry what its request says.
- RadiusPacket: the response authenticator is not checked, as in the code; decoding octets as text is a parameter.
- Base64Url: characters outside the alphabet are dropped as the C library does; the strict mode of later library versions is not modelled.
- KeyRotation: only the listed columns. `ssh_password_encrypted` (services/switch_mgmt/ssh_manager.py:141) is not in the list, so nothing is claimed of it.
- ConfigReconciler: what the generators and templates render is given; the source does not change during one pass. File writes may fail leaving anything, certificate writes too.
- ConfigConvergence.RunKeepsAgreement: the hash must be injective, certificate files a function of their hash, and the tenant lookup must not fall back to NULL; UpsertCounts and FileAgreesExactly say what the fallback costs.
- CertFilesInputs.FilesHashExactly: needs texts in which the separator does not occur, and types without a colon; SeparatorInTextCollides shows that the join is not injective on arbitrary texts.
- ProxyConfig: the settings inside a block (hosts, ports, secrets, timers) and the other generators are text assembly.
- The watcher's subscription and reconnection; a message and a timeout both are one call of ApplyAndReload.
- Certificates: transactions are serial, as if the database ran them one after the other; files written beside the table, audit rows and detail columns (description, chain, DH parameters, which a renewal does not carry over) are left out. The candidates' order by expiry is left out because there is never more than one.
- CertificateLaws.SameInstantExactly: a validity equal to the threshold is not always enough at the instant of the renewal, because certificates store whole seconds.
- CsvRow: the writer is the format of section 2 of RFC 4180, not Python's `csv` module; line breaks inside a field are not supported by the splitter and excluded.
- MabDevices.ReimportSkipsAll: VLAN numbers and the exported devices' own dates must read back from their texts, and white space must keep clear of them and of addresses. The reader of the uploaded file yields the records; a row with more cells than the header is not modelled.
- MabDevices.Whitelist.BulkImport: ids, creators and timestamps of rows, and column widths, are not modelled; a name too long for its column is an error of the database.
- UrlMask: white space is a parameter; the theorems need only that a star is not white space.
- UrlMask.MaskedMatches: a password that itself contains `@` is masked up to its first `@`, as the expression says.
- DedupCache.PruningIsInvisible: the clock must not run backwards.
- PolicyEvaluator: NaN, and conditions that are not a list, are left out; text and number conversion and regular expressions are parameters, and lower case must be empty only for the empty text in TransitiveExactly. Both evaluations read the clock once.
- UDP, NATS, Docker, SNMP, SSH, LDAP, routes, schemas, pagination, audit and logging.
