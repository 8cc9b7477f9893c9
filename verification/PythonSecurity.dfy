/** Securing a frame in the second implementation, and its agreement with the first. */
module PythonSecurity {
  import opened Bytes
  import opened NwkCodec
  import opened Ccm
  import NwkRoutines
  import NwkSecurity
  import PythonCcm

  /**
   It secures a frame as the first implementation does. It fails exactly when the auxiliary header has no source of its
   own to write, or a length does not fit in two bytes.
   */
  method Encrypt(E: Cipher, key: Key, f: Frame) returns (r: Option<Frame>)
    requires !f.encrypted && NwkSecurity.Securable(f)
    ensures r == if f.auxHeader.value.extendedSource.Some?
                    && |NwkSecurity.AuthData(f)| < 0x1_0000 && |f.payload| < 0x1_0000
                 then Some(NwkSecurity.Encrypt(E, key, f).value)
                 else None
  {
    hide PrintHeader, PrintAux, Mac, NwkSecurity.NonceOf, CryptTag;
    var aux := NwkSecurity.WithLevel(f.auxHeader.value, EncMic32);
    var nonce := NwkSecurity.GetNonce(f.header, aux);
    if aux.extendedSource.None? {
      return None;
    }
    var headerBytes := NwkRoutines.WriteHeader(f.header);
    var auxBytes := NwkRoutines.WriteAux(aux);
    var macTag := PythonCcm.ComputeMac(E, key, nonce, headerBytes + auxBytes, f.payload);
    if macTag.None? {
      return None;
    }
    var secured := PythonCcm.Encrypt(E, key, nonce, macTag.value, f.payload);
    var (encryptedTag, ciphertext) := secured.value;
    return Some(Frame(f.header, f.auxHeader, ciphertext + encryptedTag, true));
  }
}
