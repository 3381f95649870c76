/** The database plugin that encrypts registered fields on the way in and decrypts them on the way
    out (backend/internal/database/encryption_plugin.go). */

/** What one or several passes do to a single value. */
module FieldPasses {
  import opened Options
  import opened Base64
  import opened FieldEncryption

  /** One encrypting pass, under some nonce: empty and already encrypted-looking values stay. */
  ghost predicate Pass(e: FieldEncrypter, v: Bytes, w: Bytes) {
    if v == [] || FieldEncrypter.IsEncrypted(v) then w == v else exists nonce: Nonce :: w == e.Encrypt(nonce, v)
  }

  /** Encrypting under a nonce from the random source. */
  method EncryptFresh(e: FieldEncrypter, v: Bytes) returns (w: Bytes)
    ensures exists nonce: Nonce :: w == e.Encrypt(nonce, v)
  {
    var zeros: Bytes := seq(NONCE_SIZE, _ => 0);
    assert |zeros| == NONCE_SIZE;
    var nonce: Bytes :| |nonce| == NONCE_SIZE;
    w := e.Encrypt(nonce, v);
  }

  ghost predicate Passes(e: FieldEncrypter, k: nat, v: Bytes, w: Bytes) {
    if k == 0 then w == v else exists u: Bytes :: Passes(e, k - 1, v, u) && Pass(e, u, w)
  }

  /** One decrypting pass: a value that cannot be opened stays. */
  function Reveal(e: FieldEncrypter, v: Bytes): Bytes {
    if v == [] || !FieldEncrypter.IsEncrypted(v) then v
    else match e.Decrypt(v) { case Ok(p) => p case Err => v }
  }

  function Reveals(e: FieldEncrypter, k: nat, v: Bytes): Bytes {
    if k == 0 then v else Reveal(e, Reveals(e, k - 1, v))
  }

  /** Values a second encrypting pass leaves alone. */
  predicate Settles(v: Bytes) { v == [] || FieldEncrypter.IsEncrypted(v) || |v| >= 3 }

  /** Values that survive encryption and decryption. */
  predicate Restorable(e: FieldEncrypter, v: Bytes) {
    v == [] || if FieldEncrypter.IsEncrypted(v) then !e.IsBox(v) else |v| >= 3
  }

  lemma PassSettles(e: FieldEncrypter, v: Bytes, w: Bytes)
    requires e.aead.Lawful() && Pass(e, v, w)
    ensures Settles(v) ==> w == [] || FieldEncrypter.IsEncrypted(w)
    ensures !Settles(v) ==> |w| == 40
  {
    hide FieldEncrypter.Encrypt, FieldEncrypter.IsEncrypted;
    if v != [] && !FieldEncrypter.IsEncrypted(v) {
      var nonce: Nonce :| w == e.Encrypt(nonce, v);
      e.RecognisedExactly(nonce, v);
    }
  }

  /** Encrypting again changes nothing exactly for values that are empty, already look encrypted, or
      have at least three bytes. */
  lemma EncryptingIsIdempotentExactly(e: FieldEncrypter, v: Bytes, w: Bytes, x: Bytes)
    requires e.aead.Lawful() && Pass(e, v, w) && Pass(e, w, x)
    ensures x == w <==> Settles(v)
  {
    PassSettles(e, v, w);
    if !Settles(v) {
      var nonce: Nonce :| x == e.Encrypt(nonce, w);
      e.RecognisedExactly(nonce, w);
    }
  }

  /** However often a settling value is passed, one pass tells the whole story. */
  lemma {:induction false} PassesAreOnePass(e: FieldEncrypter, k: nat, v: Bytes, w: Bytes)
    requires e.aead.Lawful() && k >= 1 && Settles(v) && Passes(e, k, v, w)
    ensures Pass(e, v, w)
  {
    var u: Bytes :| Passes(e, k - 1, v, u) && Pass(e, u, w);
    if k > 1 {
      PassesAreOnePass(e, k - 1, v, u);
      PassSettles(e, v, u);
    }
  }

  lemma RevealShrinks(e: FieldEncrypter, v: Bytes)
    requires e.aead.Lawful()
    ensures |Reveal(e, v)| <= |v|
    ensures FieldEncrypter.IsEncrypted(v) ==> (Reveal(e, v) == v <==> !e.IsBox(v))
    ensures Reveal(e, v) != v ==> |Reveal(e, v)| < |v|
  {
    if FieldEncrypter.IsEncrypted(v) {
      e.DecryptShortensBoxes(v);
    }
  }

  lemma {:induction false} RevealsShrink(e: FieldEncrypter, k: nat, v: Bytes)
    requires e.aead.Lawful()
    ensures |Reveals(e, k, v)| <= |v|
    ensures Reveal(e, v) == v ==> Reveals(e, k, v) == v
    ensures Reveal(e, v) != v && k >= 1 ==> |Reveals(e, k, v)| < |v|
  {
    hide Reveal;
    if k > 0 {
      RevealsShrink(e, k - 1, v);
      RevealShrinks(e, Reveals(e, k - 1, v));
    }
  }

  lemma RevealInvertsEncrypt(e: FieldEncrypter, nonce: Nonce, v: Bytes)
    requires e.aead.Lawful() && |v| >= 3
    ensures Reveal(e, e.Encrypt(nonce, v)) == v
  {
    e.RecognisedExactly(nonce, v);
    e.DecryptInvertsEncrypt(nonce, v);
  }

  /** Peeling one more layer first. */
  lemma {:induction false} RevealsFromFront(e: FieldEncrypter, k: nat, v: Bytes)
    ensures Reveals(e, k + 1, v) == Reveals(e, k, Reveal(e, v))
  {
    hide Reveal;
    if k > 0 {
      RevealsFromFront(e, k - 1, v);
    }
  }

  /** A sealed long value reveals to the value and stays there. */
  lemma SealedReveals(e: FieldEncrypter, nonce: Nonce, v: Bytes, j: nat)
    requires e.aead.Lawful() && |v| >= 3 && !FieldEncrypter.IsEncrypted(v) && j >= 1
    ensures Reveals(e, j, e.Encrypt(nonce, v)) == v
  {
    RevealInvertsEncrypt(e, nonce, v);
    RevealsFromFront(e, j - 1, e.Encrypt(nonce, v));
    RevealsShrink(e, j - 1, v);
  }

  /** One- and two-byte values never come back: their boxes are not recognised, or are boxed again. */
  lemma {:induction false} ShortValuesAreLost(e: FieldEncrypter, k: nat, j: nat, v: Bytes, w: Bytes)
    requires e.aead.Lawful() && k >= 1 && !Settles(v) && Passes(e, k, v, w)
    ensures Reveals(e, j, w) != v
  {
    var u: Bytes :| Passes(e, k - 1, v, u) && Pass(e, u, w);
    if k == 1 {
      PassSettles(e, v, w);
      RevealsShrink(e, j, w);
    } else {
      DeepPasses(e, k, v, w);
      var first, nonce: Nonce :| |first| == 40 && w == e.Encrypt(nonce, first);
      if j > 0 {
        SealedReveals(e, nonce, first, j);
      } else {
        e.RecognisedExactly(nonce, first);
      }
    }
  }

  /** From the second pass on, a short value is a box within a box. */
  lemma {:induction false} DeepPasses(e: FieldEncrypter, k: nat, v: Bytes, w: Bytes)
    requires e.aead.Lawful() && k >= 2 && !Settles(v) && Passes(e, k, v, w)
    ensures exists first, nonce: Nonce :: |first| == 40 && w == e.Encrypt(nonce, first)
  {
    var u: Bytes :| Passes(e, k - 1, v, u) && Pass(e, u, w);
    if k == 2 {
      var t: Bytes :| Passes(e, 0, v, t) && Pass(e, t, u);
      PassSettles(e, v, u);
      assert !FieldEncrypter.IsEncrypted(u);
    } else {
      DeepPasses(e, k - 1, v, u);
      var first, nonce: Nonce :| |first| == 40 && u == e.Encrypt(nonce, first);
      e.RecognisedExactly(nonce, first);
    }
  }

  lemma OnePass(e: FieldEncrypter, v: Bytes, w: Bytes)
    ensures Passes(e, 1, v, w) <==> Pass(e, v, w)
  {
    if Passes(e, 1, v, w) {
      var u: Bytes :| Passes(e, 0, v, u) && Pass(e, u, w);
    }
    if Pass(e, v, w) {
      assert Passes(e, 0, v, v);
    }
  }

  /** From the second pass on, a short value has become one that looks encrypted. */
  lemma DeepPassesLookEncrypted(e: FieldEncrypter, k: nat, v: Bytes, w: Bytes)
    requires e.aead.Lawful() && k >= 2 && !Settles(v) && Passes(e, k, v, w)
    ensures FieldEncrypter.IsEncrypted(w)
  {
    DeepPasses(e, k, v, w);
    var first, nonce: Nonce :| |first| == 40 && w == e.Encrypt(nonce, first);
    e.RecognisedExactly(nonce, first);
  }

  /** Being passed several times amounts to being passed once exactly for settling values. */
  lemma RepetitionIsOncePassedExactly(e: FieldEncrypter, k: nat, v: Bytes, w: Bytes)
    requires e.aead.Lawful() && k >= 1 && Passes(e, k, v, w)
    ensures Pass(e, v, w) <==> k == 1 || Settles(v)
  {
    hide Passes, Pass;
    if k == 1 {
      OnePass(e, v, w);
    } else if Settles(v) {
      PassesAreOnePass(e, k, v, w);
    } else {
      DeepPassesLookEncrypted(e, k, v, w);
      if Pass(e, v, w) {
        PassSettles(e, v, w);
      }
    }
  }

  /** The same number of passes again changes nothing exactly when there was no pass, or more than one,
      or the value settles. */
  lemma PassingAgainExactly(e: FieldEncrypter, k: nat, v: Bytes, u: Bytes, x: Bytes)
    requires e.aead.Lawful() && Passes(e, k, v, u) && Passes(e, k, u, x)
    ensures x == u <==> k != 1 || Settles(v)
  {
    if k == 1 {
      OnePass(e, v, u);
      OnePass(e, u, x);
      EncryptingIsIdempotentExactly(e, v, u, x);
    } else if k > 1 {
      if Settles(v) {
        PassesAreOnePass(e, k, v, u);
        PassSettles(e, v, u);
      } else {
        DeepPassesLookEncrypted(e, k, v, u);
      }
      PassesAreOnePass(e, k, u, x);
    }
  }

  /** Encrypting passes followed by decrypting passes give the value back exactly when it is empty, or
      looks encrypted and is no box, or does not and has at least three bytes. */
  lemma RoundTripExactly(e: FieldEncrypter, k: nat, j: nat, v: Bytes, w: Bytes)
    requires e.aead.Lawful() && k >= 1 && j >= 1 && Passes(e, k, v, w)
    ensures Reveals(e, j, w) == v <==> Restorable(e, v)
  {
    if Settles(v) {
      PassesAreOnePass(e, k, v, w);
      if v == [] || FieldEncrypter.IsEncrypted(v) {
        RevealShrinks(e, v);
        RevealsShrink(e, j, v);
      } else {
        var nonce: Nonce :| w == e.Encrypt(nonce, v);
        SealedReveals(e, nonce, v, j);
      }
    } else {
      ShortValuesAreLost(e, k, j, v, w);
    }
  }

  /** A box need not be anyone's ciphertext: forty-four line feeds look encrypted, decode to nothing,
      and come back empty. */
  lemma LineFeedsAreLost(e: FieldEncrypter)
    ensures var v := seq(44, _ => LF); FieldEncrypter.IsEncrypted(v) && e.IsBox(v) && Reveal(e, v) == []
  {
    LineFeedsDecode(44);
  }

  lemma {:induction false} LineFeedsDecode(n: nat)
    ensures Unbroken(seq(n, _ => LF)) == []
  {
    if n > 0 {
      LineFeedsDecode(n - 1);
      assert seq(n, _ => LF)[1..] == seq(n - 1, _ => LF);
    }
  }
}

/** The records and the loops over their registered fields. */
module EncryptionPlugin {
  import opened Options
  import opened Base64
  import opened FieldEncryption
  import opened FieldPasses

  /** What a *string field points to; two fields may share one. */
  class StringCell {
    var value: Bytes

    constructor (value: Bytes)
      ensures this.value == value
    {
      this.value := value;
    }
  }

  /** A struct field as reflection sees it. */
  datatype Field = Text(value: Bytes, settable: bool) | Pointer(cell: StringCell?) | Other

  type Fields = map<string, Field>

  class Record {
    var fields: Fields

    constructor (fields: Fields)
      ensures this.fields == fields
    {
      this.fields := fields;
    }
  }

  function Cells(fields: Fields): set<StringCell> {
    set name | name in fields && fields[name].Pointer? && fields[name].cell != null :: fields[name].cell
  }

  /** How often a name is registered. */
  function Count(names: seq<string>, name: string): nat {
    if names == [] then 0 else Count(names[..|names| - 1], name) + if names[|names| - 1] == name then 1 else 0
  }

  /** How often a cell is reached through the registered names. */
  function CellCount(fields: Fields, names: seq<string>, c: StringCell): nat {
    if names == [] then 0
    else
      CellCount(fields, names[..|names| - 1], c) + Reaches(fields, names[|names| - 1], c)
  }

  class Plugin {
    const enc: FieldEncrypter
    var fields: map<string, seq<string>>

    constructor (enc: FieldEncrypter)
      ensures this.enc == enc && fields == map[]
    {
      this.enc := enc;
      this.fields := map[];
    }

    /** Registering appends, repetitions included. */
    method RegisterFields(tableName: string, fieldNames: seq<string>)
      modifies this
      ensures fields ==
              old(fields)[tableName := (if tableName in old(fields) then old(fields)[tableName] else []) + fieldNames]
    {
      fields := fields[tableName := (if tableName in fields then fields[tableName] else []) + fieldNames];
    }

    /** One encrypting pass over a value, under a fresh nonce. */
    method EncryptOnce(v: Bytes) returns (w: Bytes)
      ensures Pass(enc, v, w)
    {
      if v == [] {
        return v;
      }
      if FieldEncrypter.IsEncrypted(v) {
        return v;
      }
      w := EncryptFresh(enc, v);
    }

    method DecryptOnce(v: Bytes) returns (w: Bytes)
      ensures w == Reveal(enc, v)
    {
      if v == [] || !FieldEncrypter.IsEncrypted(v) {
        return v;
      }
      var plaintext := enc.Decrypt(v);
      if plaintext.Err? {
        return v;
      }
      return plaintext.value;
    }

    /** encryptFields: each registered name in turn; unknown names and other kinds are passed over.
        A value receives one pass for every time its name, or its cell, is reached. */
    method EncryptFields(v: Record, names: seq<string>)
      modifies v, Cells(v.fields)
      ensures SameShape(old(v.fields), v.fields)
      ensures forall name :: name in old(v.fields) && old(v.fields)[name].Text? && old(v.fields)[name].settable ==>
                               Passes(enc, Count(names, name), old(v.fields)[name].value, v.fields[name].value)
      ensures forall c :: c in Cells(old(v.fields)) ==>
                            Passes(enc, CellCount(old(v.fields), names, c), old(c.value), c.value)
    {
      hide Pass, FieldEncrypter.IsEncrypted;
      ghost var start := v.fields;
      for i := 0 to |names|
        invariant TextsPassed(enc, start, v.fields, names[..i])
        invariant forall c :: c in Cells(start) ==> Passes(enc, CellCount(start, names[..i], c), old(c.value), c.value)
      {
        var name := names[i];
        ghost var before := v.fields;
        CountsNext(start, names, i);
        if name in v.fields && v.fields[name].Text? && v.fields[name].settable {
          var w := EncryptOnce(v.fields[name].value);
          v.fields := v.fields[name := Text(w, true)];
          TextPassedOnce(enc, start, before, names, i, w);
        } else {
          NoTextPassed(enc, start, before, names, i);
          if name in v.fields && v.fields[name].Pointer? && v.fields[name].cell != null {
            var cell := v.fields[name].cell;
            cell.value := EncryptOnce(cell.value);
          }
        }
      }
      assert names[..|names|] == names;
    }

    /** decryptFields: the same walk, decrypting. */
    method DecryptFields(v: Record, names: seq<string>)
      modifies v, Cells(v.fields)
      ensures SameShape(old(v.fields), v.fields)
      ensures forall name :: name in old(v.fields) && old(v.fields)[name].Text? && old(v.fields)[name].settable ==>
                               v.fields[name].value == Reveals(enc, Count(names, name), old(v.fields)[name].value)
      ensures forall c :: c in Cells(old(v.fields)) ==>
                            c.value == Reveals(enc, CellCount(old(v.fields), names, c), old(c.value))
    {
      hide Reveal;
      ghost var start := v.fields;
      for i := 0 to |names|
        invariant TextsRevealed(enc, start, v.fields, names[..i])
        invariant forall c :: c in Cells(start) ==>
                                c.value == Reveals(enc, CellCount(start, names[..i], c), old(c.value))
      {
        var name := names[i];
        CountsNext(start, names, i);
        ghost var before := v.fields;
        if name in v.fields && v.fields[name].Text? && v.fields[name].settable {
          var w := DecryptOnce(v.fields[name].value);
          v.fields := v.fields[name := Text(w, true)];
          TextRevealedOnce(enc, start, before, names, i);
        } else {
          NoTextRevealed(enc, start, before, names, i);
          if name in v.fields && v.fields[name].Pointer? && v.fields[name].cell != null {
            var cell := v.fields[name].cell;
            cell.value := DecryptOnce(cell.value);
          }
        }
      }
      assert names[..|names|] == names;
    }

    /** A record written and read back: a registered value returns unchanged exactly when it is
        restorable, however often it is registered or shared, and nothing else is touched. */
    method StoreAndLoad(v: Record, names: seq<string>)
      requires enc.aead.Lawful()
      modifies v, Cells(v.fields)
      ensures SameShape(old(v.fields), v.fields)
      ensures forall name :: name in old(v.fields) && old(v.fields)[name].Text? && old(v.fields)[name].settable ==>
                (v.fields[name].value == old(v.fields)[name].value
                 <==> name !in names || Restorable(enc, old(v.fields)[name].value))
      ensures forall c :: c in Cells(old(v.fields)) ==>
                (c.value == old(c.value) <==>
                 (forall k :: 0 <= k < |names| && names[k] in old(v.fields) ==> old(v.fields)[names[k]] != Pointer(c))
                 || Restorable(enc, old(c.value)))
    {
      EncryptFields(v, names);
      label stored:
      CellsSame(old(v.fields), v.fields);
      DecryptFields(v, names);
      forall name | name in old(v.fields) && old(v.fields)[name].Text? && old(v.fields)[name].settable
        ensures v.fields[name].value == old(v.fields)[name].value
                <==> name !in names || Restorable(enc, old(v.fields)[name].value)
      {
        CountZero(names, name);
        if Count(names, name) > 0 {
          RoundTripExactly(enc, Count(names, name), Count(names, name), old(v.fields)[name].value,
                           old@stored(v.fields)[name].value);
        }
      }
      forall c | c in Cells(old(v.fields))
        ensures c.value == old(c.value) <==>
                (forall k :: 0 <= k < |names| && names[k] in old(v.fields) ==> old(v.fields)[names[k]] != Pointer(c))
                || Restorable(enc, old(c.value))
      {
        var n := CellCount(old(v.fields), names, c);
        CellCountZero(old(v.fields), names, c);
        CellCountSame(old(v.fields), old@stored(v.fields), names, c);
        if n > 0 {
          RoundTripExactly(enc, n, n, old(c.value), old@stored(c.value));
        }
      }
    }

    /** A record encrypted twice, as when it is saved again without having been loaded: the second walk
        leaves a value alone exactly when the first did not reach it, or reached it more than once, or
        it settles. `once` and `held` are the values in between. */
    method EncryptAgain(v: Record, names: seq<string>)
      returns (ghost once: Fields, ghost held: map<StringCell, Bytes>)
      requires enc.aead.Lawful()
      modifies v, Cells(v.fields)
      ensures SameShape(old(v.fields), once) && SameShape(once, v.fields) && held.Keys == Cells(old(v.fields))
      ensures forall name :: name in old(v.fields) && IsSettable(old(v.fields)[name]) ==>
                && Passes(enc, Count(names, name), old(v.fields)[name].value, once[name].value)
                && (v.fields[name].value == once[name].value <==>
                    Count(names, name) != 1 || Settles(old(v.fields)[name].value))
      ensures forall c :: c in Cells(old(v.fields)) ==>
                && Passes(enc, CellCount(old(v.fields), names, c), old(c.value), held[c])
                && (c.value == held[c] <==> CellCount(old(v.fields), names, c) != 1 || Settles(old(c.value)))
      ensures (v.fields == once && forall c :: c in held ==> c.value == held[c]) <==>
              AllSettled(old(v.fields), names) &&
              forall c :: c in Cells(old(v.fields)) ==>
                            CellCount(old(v.fields), names, c) != 1 || Settles(old(c.value))
    {
      EncryptFields(v, names);
      once := v.fields;
      CellsSame(old(v.fields), once);
      held := map c | c in Cells(once) :: c.value;
      label stored:
      EncryptFields(v, names);
      forall name | name in old(v.fields) && IsSettable(old(v.fields)[name])
        ensures v.fields[name].value == once[name].value <==>
                Count(names, name) != 1 || Settles(old(v.fields)[name].value)
      {
        PassingAgainExactly(enc, Count(names, name), old(v.fields)[name].value, once[name].value,
                            v.fields[name].value);
      }
      forall c | c in Cells(old(v.fields))
        ensures c.value == held[c] <==> CellCount(old(v.fields), names, c) != 1 || Settles(old(c.value))
      {
        CellCountSame(old(v.fields), once, names, c);
        PassingAgainExactly(enc, CellCount(old(v.fields), names, c), old(c.value), held[c], c.value);
      }
      SettledMeansEqual(old(v.fields), once, v.fields, names);
    }
  }

  /** Every settable text is reached not at all, or more than once, or settles. */
  ghost predicate AllSettled(fields: Fields, names: seq<string>) {
    forall name :: name in fields && IsSettable(fields[name]) ==>
                     Count(names, name) != 1 || Settles(fields[name].value)
  }

  lemma SettledMeansEqual(start: Fields, once: Fields, twice: Fields, names: seq<string>)
    requires SameShape(start, once) && SameShape(once, twice)
    requires forall name :: name in start && IsSettable(start[name]) ==>
               (twice[name].value == once[name].value <==> Count(names, name) != 1 || Settles(start[name].value))
    ensures twice == once <==> AllSettled(start, names)
  {
    hide Settles, Count;
    if AllSettled(start, names) {
      forall name | name in once ensures twice[name] == once[name] {
        assert name in start;
      }
    }
  }

  predicate IsSettable(f: Field) { f.Text? && f.settable }

  ghost predicate TextsPassed(e: FieldEncrypter, before: Fields, after: Fields, names: seq<string>) {
    && SameShape(before, after)
    && forall name :: name in before && IsSettable(before[name]) ==>
                        Passes(e, Count(names, name), before[name].value, after[name].value)
  }

  ghost predicate TextsRevealed(e: FieldEncrypter, before: Fields, after: Fields, names: seq<string>) {
    && SameShape(before, after)
    && forall name :: name in before && IsSettable(before[name]) ==>
                        after[name].value == Reveals(e, Count(names, name), before[name].value)
  }

  lemma CountsNext(fields: Fields, names: seq<string>, i: nat)
    requires i < |names|
    ensures forall name :: Count(names[..i + 1], name) == Count(names[..i], name) + if names[i] == name then 1 else 0
    ensures forall c: StringCell ::
              CellCount(fields, names[..i + 1], c) == CellCount(fields, names[..i], c) + Reaches(fields, names[i], c)
  {
    assert names[..i + 1][..i] == names[..i];
  }

  function Reaches(fields: Fields, name: string, c: StringCell): nat {
    if name in fields && fields[name] == Pointer(c) then 1 else 0
  }

  lemma TextPassedOnce(e: FieldEncrypter, start: Fields, before: Fields, names: seq<string>, i: nat, w: Bytes)
    requires i < |names| && TextsPassed(e, start, before, names[..i])
    requires names[i] in before && IsSettable(before[names[i]]) && Pass(e, before[names[i]].value, w)
    ensures TextsPassed(e, start, before[names[i] := Text(w, true)], names[..i + 1])
  {
    hide Pass;
    CountsNext(start, names, i);
  }

  lemma NoTextPassed(e: FieldEncrypter, start: Fields, before: Fields, names: seq<string>, i: nat)
    requires i < |names| && TextsPassed(e, start, before, names[..i])
    requires names[i] !in before || !IsSettable(before[names[i]])
    ensures TextsPassed(e, start, before, names[..i + 1])
  {
    CountsNext(start, names, i);
  }

  lemma TextRevealedOnce(e: FieldEncrypter, start: Fields, before: Fields, names: seq<string>, i: nat)
    requires i < |names| && TextsRevealed(e, start, before, names[..i])
    requires names[i] in before && IsSettable(before[names[i]])
    ensures TextsRevealed(e, start, before[names[i] := Text(Reveal(e, before[names[i]].value), true)], names[..i + 1])
  {
    hide Reveal;
    CountsNext(start, names, i);
  }

  lemma NoTextRevealed(e: FieldEncrypter, start: Fields, before: Fields, names: seq<string>, i: nat)
    requires i < |names| && TextsRevealed(e, start, before, names[..i])
    requires names[i] !in before || !IsSettable(before[names[i]])
    ensures TextsRevealed(e, start, before, names[..i + 1])
  {
    CountsNext(start, names, i);
  }

  /** Only the values of settable text fields differ. */
  ghost predicate SameShape(before: Fields, after: Fields) {
    && before.Keys == after.Keys
    && forall name :: name in before ==>
         if before[name].Text? && before[name].settable then after[name].Text? && after[name].settable
         else after[name] == before[name]
  }

  lemma CellsSame(before: Fields, after: Fields)
    requires SameShape(before, after)
    ensures Cells(before) == Cells(after)
  {
    forall c ensures c in Cells(before) <==> c in Cells(after) {
      if c in Cells(before) {
        var name :| name in before && before[name].Pointer? && before[name].cell == c;
        assert after[name] == before[name];
      }
      if c in Cells(after) {
        var name :| name in after && after[name].Pointer? && after[name].cell == c;
        assert after[name] == before[name];
      }
    }
  }

  lemma {:induction false} CountZero(names: seq<string>, name: string)
    ensures Count(names, name) == 0 <==> name !in names
  {
    if names != [] {
      CountZero(names[..|names| - 1], name);
    }
  }

  lemma {:induction false} CellCountZero(fields: Fields, names: seq<string>, c: StringCell)
    ensures CellCount(fields, names, c) == 0 <==>
            forall k :: 0 <= k < |names| && names[k] in fields ==> fields[names[k]] != Pointer(c)
  {
    if names != [] {
      var n := |names| - 1;
      CellCountZero(fields, names[..n], c);
      assert forall k :: 0 <= k < n ==> names[..n][k] == names[k];
    }
  }

  lemma {:induction false} CellCountSame(before: Fields, after: Fields, names: seq<string>, c: StringCell)
    requires SameShape(before, after)
    ensures CellCount(before, names, c) == CellCount(after, names, c)
  {
    if names != [] {
      CellCountSame(before, after, names[..|names| - 1], c);
    }
  }
}
