/** The constants the filecrypt package shares between its files (filecrypt/filecrypt.go). */
module FcConst {

  /** Key derivation types, written at offset 1 of the key header. */
  const FC_KEY_T_NOKEY := 0
  const FC_KEY_T_DIRECT := 1
  const FC_KEY_T_PBKDF2 := 2
  const FC_KEY_NTYPE := 3

  /** Encryption types, written at offset 1 of a block header. */
  const FC_CLEAR := 0
  const FC_GCM := 1
  const FC_RSA := 2
  const FC_NTYPE := 3

  /** Hash functions a PBKDF2 key header may name. */
  const FC_NOHASH := 0
  const FC_HASH_SHA1 := 1
  const FC_HASH_SHA256 := 2
  const FC_NHASH := 3

  /** Header versions: only version 0 exists. */
  const FC_HDR_VERSION_1 := 0
  const FC_HDR_NVERSION := 1
}
