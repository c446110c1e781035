/** Selection of the trust-store certificates from the process environment:
    every variable whose name starts with `TRUSTSTORE_` and whose value is
    not empty contributes its value, base64-decoded and trimmed. The base64
    decoder is a parameter. */
module TrustStore {
  import opened Wrappers
  import opened Seqs
  import opened Text

  /** An environment variable: its name and its value. */
  type EnvEntry = (string, string)

  const CertPrefix: string := "TRUSTSTORE_"

  /** The first `map`: the value when the name has the prefix, otherwise
      JavaScript's `false` (here `None`). */
  function Pick(e: EnvEntry): Option<string>
  {
    if StartsWith(e.0, CertPrefix) then Some(e.1) else None
  }

  /** `filter(Boolean)`: `false` and the empty string are dropped. */
  function Truthy(p: Option<string>): bool
  {
    p.Some? && p.value != ""
  }

  /** The last `map`: decode, then trim. Only picked values reach it. */
  function DecodeCert(decode: string -> string): Option<string> -> string
  {
    (p: Option<string>) => if p.Some? then Trim(decode(p.value)) else ""
  }

  /** The entries that contribute a certificate. */
  predicate IsCertEntry(e: EnvEntry)
  {
    StartsWith(e.0, CertPrefix) && e.1 != ""
  }

  /** `getTrustStoreCerts(envs)`, stage by stage. */
  function GetTrustStoreCerts(envs: seq<EnvEntry>, decode: string -> string): (certs: seq<string>)
    ensures |certs| == Count(envs, IsCertEntry) <= |envs|
    ensures forall i :: 0 <= i < |certs| ==>
      certs[i] == [] || (!IsJsWhitespace(certs[i][0]) && !IsJsWhitespace(certs[i][|certs[i]| - 1]))
  {
    var picked := Filter(Map(envs, Pick), Truthy);
    PipelineCount(envs, decode);
    DecodedAreTrimmed(picked, decode);
    Map(picked, DecodeCert(decode))
  }

  lemma PipelineCount(envs: seq<EnvEntry>, decode: string -> string)
    ensures |Map(Filter(Map(envs, Pick), Truthy), DecodeCert(decode))| == Count(envs, IsCertEntry) <= |envs|
  {
    CertsAreReference(envs, decode);
    ReferenceCount(envs, decode);
  }

  lemma DecodedAreTrimmed(picked: seq<Option<string>>, decode: string -> string)
    ensures var certs := Map(picked, DecodeCert(decode));
      forall i :: 0 <= i < |certs| ==>
        certs[i] == [] || (!IsJsWhitespace(certs[i][0]) && !IsJsWhitespace(certs[i][|certs[i]| - 1]))
  {
    var certs := Map(picked, DecodeCert(decode));
    forall i | 0 <= i < |certs|
      ensures certs[i] == [] || (!IsJsWhitespace(certs[i][0]) && !IsJsWhitespace(certs[i][|certs[i]| - 1]))
    {
      if picked[i].Some? {
        assert certs[i] == Trim(decode(picked[i].value));
      }
    }
  }

  /** The same selection written entry by entry: a reference definition. */
  function CertsOf(envs: seq<EnvEntry>, decode: string -> string): seq<string>
  {
    if envs == [] then []
    else Contribution(envs[0], decode) + CertsOf(envs[1..], decode)
  }

  /** What one variable adds to the list. */
  function Contribution(e: EnvEntry, decode: string -> string): seq<string>
  {
    if IsCertEntry(e) then [Trim(decode(e.1))] else []
  }

  /** The pipeline computes the reference definition. */
  lemma {:induction false} CertsAreReference(envs: seq<EnvEntry>, decode: string -> string)
    ensures Map(Filter(Map(envs, Pick), Truthy), DecodeCert(decode)) == CertsOf(envs, decode)
  {
    if envs != [] {
      CertsAreReference(envs[1..], decode);
      var head := if Truthy(Pick(envs[0])) then [Pick(envs[0])] else [];
      MapCons(envs, Pick);
      FilterCons(Pick(envs[0]), Map(envs[1..], Pick), Truthy);
      MapAppend(head, Filter(Map(envs[1..], Pick), Truthy), DecodeCert(decode));
      HeadContribution(envs[0], decode);
    }
  }

  lemma MapCons<T, U>(s: seq<T>, f: T -> U)
    requires s != []
    ensures Map(s, f) == [f(s[0])] + Map(s[1..], f)
  {
  }

  /** The first variable's share of the pipeline is its contribution. */
  lemma HeadContribution(e: EnvEntry, decode: string -> string)
    ensures Map(if Truthy(Pick(e)) then [Pick(e)] else [], DecodeCert(decode)) == Contribution(e, decode)
  {
  }

  lemma MapAppend<T, U>(a: seq<T>, b: seq<T>, f: T -> U)
    ensures Map(a + b, f) == Map(a, f) + Map(b, f)
  {
  }

  lemma {:induction false} ReferenceCount(envs: seq<EnvEntry>, decode: string -> string)
    ensures |CertsOf(envs, decode)| == Count(envs, IsCertEntry) <= |envs|
  {
    if envs != [] {
      ReferenceCount(envs[1..], decode);
    }
  }

  /** The certificates of two blocks of variables are those of the first
      block followed by those of the second: the input order is kept. */
  lemma {:induction false} CertsAppend(a: seq<EnvEntry>, b: seq<EnvEntry>, decode: string -> string)
    ensures GetTrustStoreCerts(a + b, decode) == GetTrustStoreCerts(a, decode) + GetTrustStoreCerts(b, decode)
  {
    CertsAreReference(a + b, decode);
    CertsAreReference(a, decode);
    CertsAreReference(b, decode);
    ReferenceAppend(a, b, decode);
  }

  lemma {:induction false} ReferenceAppend(a: seq<EnvEntry>, b: seq<EnvEntry>, decode: string -> string)
    ensures CertsOf(a + b, decode) == CertsOf(a, decode) + CertsOf(b, decode)
  {
    if a == [] {
      assert a + b == b;
    } else {
      assert (a + b)[1..] == a[1..] + b;
      ReferenceAppend(a[1..], b, decode);
    }
  }

  /** One variable contributes exactly when it has the prefix and a value,
      and then contributes its decoded, trimmed value. */
  lemma OneVariable(e: EnvEntry, decode: string -> string)
    ensures GetTrustStoreCerts([e], decode) == if IsCertEntry(e) then [Trim(decode(e.1))] else []
  {
    CertsAreReference([e], decode);
    assert [e][1..] == [];
    assert CertsOf([e], decode) == Contribution(e, decode) + CertsOf([], decode);
  }

  /** Without a prefixed, non-empty variable there are no certificates. */
  lemma {:induction false} NoCertVariables(envs: seq<EnvEntry>, decode: string -> string)
    requires forall i :: 0 <= i < |envs| ==> !IsCertEntry(envs[i])
    ensures GetTrustStoreCerts(envs, decode) == []
  {
    CertsAreReference(envs, decode);
    NoReferenceCerts(envs, decode);
  }

  lemma {:induction false} NoReferenceCerts(envs: seq<EnvEntry>, decode: string -> string)
    requires forall i :: 0 <= i < |envs| ==> !IsCertEntry(envs[i])
    ensures CertsOf(envs, decode) == []
  {
    if envs != [] {
      assert !IsCertEntry(envs[0]);
      NoReferenceCerts(envs[1..], decode);
    }
  }

  /** The value is tested before it is decoded: a non-empty value that
      decodes to white space alone still yields an (empty) certificate. */
  lemma WhitespaceValueYieldsEmptyCert(name: string, value: string, decode: string -> string)
    requires StartsWith(name, CertPrefix) && value != ""
    requires forall i :: 0 <= i < |decode(value)| ==> IsJsWhitespace(decode(value)[i])
    ensures GetTrustStoreCerts([(name, value)], decode) == [[]]
  {
    OneVariable((name, value), decode);
    TrimAllWhitespace(decode(value));
  }
}
