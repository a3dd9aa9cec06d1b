/** The two ways the server reads the domain of an address, and when they agree. */
module Address {
  import opened Text

  /**
   * The domain as the SMTP code reads it: the text after the last '@' of the trimmed address,
   * trimmed and lower-cased. Written with positions in the original text.
   */
  function ExtractDomain(address: string): Option<string> {
    var (from, to) := TrimWindow(address, 0, |address|);
    var at := LastIndexIn(address, '@', from, to);
    if at.None? || at.value == from || at.value == to - 1 then None
    else
      var (lo, hi) := TrimWindow(address, at.value + 1, to);
      Some(Lower(address[lo..hi]))
  }

  /** The domain as the outbound queue's SQL reads it: after the first '@', untrimmed. */
  function SqlDomain(recipient: string): Option<string> {
    var at := IndexIn(recipient, '@', 0, |recipient|);
    if at.None? || at.value == 0 then None
    else Some(Lower(recipient[at.value + 1..]))
  }

  /** The text before the first '@' of the trimmed address, as the MailFail rules read it. */
  function ExtractLocalPart(address: string): Option<string> {
    var (from, to) := TrimWindow(address, 0, |address|);
    var at := IndexIn(address, '@', from, to);
    if at.None? || at.value == from then None else Some(Lower(address[from..at.value]))
  }

  /** A domain that is read is not empty and needs no trimming. */
  lemma DomainNonEmpty(address: string)
    ensures ExtractDomain(address).Some? ==> ExtractDomain(address).value != "" && Trimmed(ExtractDomain(address).value)
  {
    if ExtractDomain(address).Some? {
      var (from, to) := TrimWindow(address, 0, |address|);
      var at := LastIndexIn(address, '@', from, to).value;
      var (lo, hi) := TrimWindow(address, at + 1, to);
      LowerTrimmed(address[lo..hi]);
    }
  }

  lemma DomainIsLower(address: string)
    requires ExtractDomain(address).Some?
    ensures Lower(ExtractDomain(address).value) == ExtractDomain(address).value
  {
    var (from, to) := TrimWindow(address, 0, |address|);
    var (lo, hi) := TrimWindow(address, LastIndexIn(address, '@', from, to).value + 1, to);
    LowerIdempotent(address[lo..hi]);
  }

  /** Exactly one '@' with something before it, and behind it a text without white space around. */
  predicate PlainAddress(address: string) {
    var at := IndexIn(address, '@', 0, |address|);
    && at.Some?
    && (exists k :: 0 <= k < at.value && !IsSpace(address[k]))
    && (forall k :: at.value < k < |address| ==> address[k] != '@')
    && address[at.value + 1..] != "" && Trimmed(address[at.value + 1..])
  }

  /** No '@', or one in front, and that the only one or the last with nothing but white space behind it. */
  predicate NoDomain(address: string) {
    var first := IndexIn(address, '@', 0, |address|);
    var last := LastIndexIn(address, '@', 0, |address|);
    || first.None?
    || (first.value == 0 && (last.value == 0 || forall k :: last.value < k < |address| ==> IsSpace(address[k])))
  }

  /** The last '@' of an address is also the last of its trimmed text. */
  lemma LastAt(address: string)
    ensures var (from, to) := TrimWindow(address, 0, |address|);
            LastIndexIn(address, '@', from, to) == LastIndexIn(address, '@', 0, |address|)
  {
  }

  lemma PlainIfAgree(address: string)
    requires ExtractDomain(address).Some? && SqlDomain(address) == ExtractDomain(address)
    ensures PlainAddress(address)
  {
    var (from, to) := TrimWindow(address, 0, |address|);
    var at := LastIndexIn(address, '@', from, to).value;
    var (lo, hi) := TrimWindow(address, at + 1, to);
    var first := IndexIn(address, '@', 0, |address|).value;
    assert |address[first + 1..]| == |address[lo..hi]|;
    assert first == at && lo == at + 1 && hi == |address|;
    assert !IsSpace(address[from]);
    LowerTrimmed(address[first + 1..]);
  }

  /** Where the worker finds the parts of a plain address. */
  lemma PlainParts(address: string)
    requires PlainAddress(address)
    ensures var (from, to) := TrimWindow(address, 0, |address|);
            var first := IndexIn(address, '@', 0, |address|);
            from < first.value < |address| - 1 && to == |address| && LastIndexIn(address, '@', from, to) == first
  {
    var first := IndexIn(address, '@', 0, |address|).value;
    var rest := address[first + 1..];
    assert !IsSpace(rest[|rest| - 1]) && rest[|rest| - 1] == address[|address| - 1];
    LastAt(address);
  }

  lemma TrimWindowFixed(s: string, from: nat)
    requires from < |s| && Trimmed(s[from..])
    ensures TrimWindow(s, from, |s|) == (from, |s|)
  {
    var rest := s[from..];
    assert rest[0] == s[from] && rest[|rest| - 1] == s[|s| - 1];
  }

  lemma AgreeIfPlain(address: string)
    requires PlainAddress(address)
    ensures ExtractDomain(address).Some? && SqlDomain(address) == ExtractDomain(address)
  {
    PlainParts(address);
    var at := IndexIn(address, '@', 0, |address|).value;
    TrimWindowFixed(address, at + 1);
    assert address[at + 1..] == address[at + 1..|address|];
  }

  lemma NoDomainRead(address: string)
    requires ExtractDomain(address).None?
    ensures SqlDomain(address).None? <==> NoDomain(address)
  {
    LastAt(address);
  }

  lemma DomainRead(address: string)
    requires ExtractDomain(address).Some?
    ensures !NoDomain(address)
  {
    LastAt(address);
  }

  /**
   * The SQL throttle and the worker read the same from an address exactly when it is plain, or when
   * neither can read a domain from it.
   */
  lemma DomainsAgree(address: string)
    ensures SqlDomain(address) == ExtractDomain(address) <==> PlainAddress(address) || NoDomain(address)
    ensures PlainAddress(address) ==> ExtractDomain(address).Some?
    ensures NoDomain(address) ==> ExtractDomain(address).None?
  {
    if PlainAddress(address) {
      AgreeIfPlain(address);
    }
    if ExtractDomain(address).None? {
      NoDomainRead(address);
    } else {
      DomainRead(address);
      if SqlDomain(address) == ExtractDomain(address) {
        PlainIfAgree(address);
      }
    }
  }

  lemma DomainHasNoAt(address: string)
    requires ExtractDomain(address).Some?
    ensures forall k :: 0 <= k < |ExtractDomain(address).value| ==> ExtractDomain(address).value[k] != '@'
  {
    var (from, to) := TrimWindow(address, 0, |address|);
    var at := LastIndexIn(address, '@', from, to).value;
    var (lo, hi) := TrimWindow(address, at + 1, to);
    var text := address[lo..hi];
    forall k | 0 <= k < |text| ensures Lower(text)[k] != '@' {
      assert text[k] == address[lo + k];
    }
  }

  /** What SQL reads is some address's domain in the worker's reading only if the address is plain. */
  lemma OddDomainUnread(address: string, other: string)
    requires ExtractDomain(address).Some? && ExtractDomain(other).Some?
    ensures SqlDomain(address) == ExtractDomain(other) ==> PlainAddress(address)
  {
    if SqlDomain(address) == ExtractDomain(other) {
      DomainHasNoAt(other);
      DomainNonEmpty(other);
      var first := IndexIn(address, '@', 0, |address|).value;
      var rest := address[first + 1..];
      LowerTrimmed(rest);
      forall k | first < k < |address| ensures address[k] != '@' {
        assert rest[k - first - 1] == address[k];
        assert Lower(rest)[k - first - 1] != '@';
      }
    }
  }

  lemma DifferTwice(address: string)
    requires address == "a@b.test@c.test"
    ensures SqlDomain(address) != ExtractDomain(address)
  {
    assert address[1] == '@' && address[8] == '@';
    DomainsAgree(address);
  }

  lemma DifferBlank(address: string)
    requires address == " @b.test"
    ensures SqlDomain(address) != ExtractDomain(address)
  {
    assert address[0] == ' ' && address[1] == '@';
    DomainsAgree(address);
  }

  /** An address with two '@', and one with a blank in front, for which the two readings differ. */
  lemma DomainsDiffer()
    ensures SqlDomain("a@b.test@c.test") != ExtractDomain("a@b.test@c.test")
    ensures SqlDomain(" @b.test") != ExtractDomain(" @b.test")
  {
    DifferTwice("a@b.test@c.test");
    DifferBlank(" @b.test");
  }
}
