/** The link schemes and the escapes of pkg/parser/detector.go in writing. */
module Schemes {
  import opened Bytes
  import opened Detector
  import opened Options

  predicate StartsWith(s: bytes, text: string) {
    |text| <= |s| && forall i | 0 <= i < |text| :: s[i] == text[i] as int
  }

  /** The word and the text that spells it, separator included. */
  predicate Spelled(word: bytes, text: string) {
    && |text| == |word| + 3 && (forall i | 0 <= i < |word| :: word[i] == text[i] as int)
    && text[|word|] == ':' && text[|word| + 1] == '/' && text[|word| + 2] == '/'
  }

  lemma SchemeIs(s: bytes, word: bytes, text: string)
    requires Spelled(word, text)
    ensures HasScheme(s, word) <==> StartsWith(s, text)
  {
    var full := word + SCHEME_END;
    assert forall i | 0 <= i < |text| :: full[i] == text[i] as int;
    if |full| <= |s| {
      assert s[..|full|] == full <==> StartsWith(s, text);
    }
  }

  lemma Heads(s: bytes, word: bytes)
    requires |word| >= 2
    ensures HasScheme(s, word) ==> |s| >= 2 && s[0] == word[0] && s[1] == word[1]
  {
    if HasScheme(s, word) {
      assert s[..|word| + 3] == word + SCHEME_END;
    }
  }

  lemma SpelledV()
    ensures Spelled(VMESS, "vmess://") && Spelled(VLESS, "vless://")
  {
  }

  lemma SpelledT()
    ensures Spelled(TROJAN, "trojan://") && Spelled(TUIC, "tuic://")
  {
  }

  lemma SpelledH()
    ensures Spelled(HYSTERIA2, "hysteria2://") && Spelled(HY2, "hy2://") && Spelled(SS, "ss://")
  {
  }

  lemma SpelledW()
    ensures Spelled(WIREGUARD, "wireguard://")
  {
  }

  lemma SpelledS()
    ensures Spelled(SOCKS5, "socks5://") && Spelled(SOCKS4, "socks4://") && Spelled(SOCKS, "socks://")
  {
  }

  /** No text starts with the words of two protocols. */
  lemma OneProtocol(s: bytes)
    ensures DetectTrimmed(s) == Some(VMess) <==> HasScheme(s, VMESS)
    ensures DetectTrimmed(s) == Some(VLess) <==> HasScheme(s, VLESS)
    ensures DetectTrimmed(s) == Some(Trojan) <==> HasScheme(s, TROJAN)
    ensures DetectTrimmed(s) == Some(Shadowsocks) <==> HasScheme(s, SS)
    ensures DetectTrimmed(s) == Some(Hysteria2) <==> HasScheme(s, HYSTERIA2) || HasScheme(s, HY2)
    ensures DetectTrimmed(s) == Some(Tuic) <==> HasScheme(s, TUIC)
    ensures DetectTrimmed(s) == Some(WireGuard) <==> HasScheme(s, WIREGUARD)
    ensures DetectTrimmed(s) == Some(Socks5) <==>
      HasScheme(s, SOCKS5) || HasScheme(s, SOCKS4) || HasScheme(s, SOCKS)
  {
    Heads(s, VMESS);
    Heads(s, VLESS);
    Heads(s, TROJAN);
    Heads(s, SS);
    Heads(s, HYSTERIA2);
    Heads(s, HY2);
    Heads(s, TUIC);
    Heads(s, WIREGUARD);
    Heads(s, SOCKS5);
    Heads(s, SOCKS4);
    Heads(s, SOCKS);
  }

  /** Which protocol a text shows depends on nothing but how it starts, and not on the order in which
      the schemes are tried. */
  lemma DetectedIff(s: bytes)
    ensures DetectTrimmed(s) == Some(VMess) <==> StartsWith(s, "vmess://")
    ensures DetectTrimmed(s) == Some(VLess) <==> StartsWith(s, "vless://")
    ensures DetectTrimmed(s) == Some(Trojan) <==> StartsWith(s, "trojan://")
    ensures DetectTrimmed(s) == Some(Shadowsocks) <==> StartsWith(s, "ss://")
    ensures DetectTrimmed(s) == Some(Hysteria2) <==> StartsWith(s, "hysteria2://") || StartsWith(s, "hy2://")
    ensures DetectTrimmed(s) == Some(Tuic) <==> StartsWith(s, "tuic://")
    ensures DetectTrimmed(s) == Some(WireGuard) <==> StartsWith(s, "wireguard://")
    ensures DetectTrimmed(s) == Some(Socks5) <==>
      StartsWith(s, "socks5://") || StartsWith(s, "socks4://") || StartsWith(s, "socks://")
    ensures DetectTrimmed(s) != Some(Reality)
  {
    OneProtocol(s);
    SpelledV();
    SpelledT();
    SpelledH();
    SpelledW();
    SpelledS();
    SchemeIs(s, VMESS, "vmess://");
    SchemeIs(s, VLESS, "vless://");
    SchemeIs(s, TROJAN, "trojan://");
    SchemeIs(s, SS, "ss://");
    SchemeIs(s, HYSTERIA2, "hysteria2://");
    SchemeIs(s, HY2, "hy2://");
    SchemeIs(s, TUIC, "tuic://");
    SchemeIs(s, WIREGUARD, "wireguard://");
    SchemeIs(s, SOCKS5, "socks5://");
    SchemeIs(s, SOCKS4, "socks4://");
    SchemeIs(s, SOCKS, "socks://");
  }

  // ---- escapes -----------------------------------------------------------------------

  predicate HexDigitOf(c: byte, v: int) {
    0 <= v < 16 && (c == "0123456789abcdef"[v] as int || c == "0123456789ABCDEF"[v] as int)
  }

  lemma HexIs(c: byte, v: int)
    ensures HexDigitOf(c, v) <==> v >= 0 && HexValue(c) == v
  {
  }

  /** '%' and two hexadecimal digits stand for one byte. */
  lemma UnescapeReads(high: byte, low: byte, h: int, l: int, rest: bytes)
    requires HexDigitOf(high, h) && HexDigitOf(low, l) && QueryUnescape(rest).Some?
    ensures QueryUnescape(['%' as int, high, low] + rest) == Some([16 * h + l] + QueryUnescape(rest).value)
  {
    HexIs(high, h);
    HexIs(low, l);
    EscapeRead(['%' as int, high, low] + rest, rest);
  }

  lemma EscapeRead(s: bytes, rest: bytes)
    requires |s| >= 3 && s[0] == PERCENT && HexValue(s[1]) >= 0 && HexValue(s[2]) >= 0 && s[3..] == rest
    requires QueryUnescape(rest).Some?
    ensures QueryUnescape(s) == Some([HexValue(s[1]) * 16 + HexValue(s[2])] + QueryUnescape(rest).value)
  {
  }

  /** '+' stands for a space, any other byte for itself. */
  lemma OtherReads(c: byte, rest: bytes)
    requires c != '%' as int && QueryUnescape(rest).Some?
    ensures QueryUnescape([c] + rest) ==
      Some([if c == '+' as int then ' ' as int else c] + QueryUnescape(rest).value)
  {
    assert ([c] + rest)[1..] == rest;
  }

  /** A '%' without two digits behind it makes the whole text verbatim. */
  lemma {:induction false} BadEscape(before: bytes, after: bytes)
    requires '%' as int !in before
    requires forall h, l | |after| >= 2 :: !(HexDigitOf(after[0], h) && HexDigitOf(after[1], l))
    ensures var s := before + ['%' as int] + after; QueryUnescape(s).None? && NameOf(s) == s
  {
    var s := before + ['%' as int] + after;
    if before != [] {
      assert s[1..] == before[1..] + ['%' as int] + after;
      BadEscape(before[1..], after);
    } else if |after| >= 2 {
      HexIs(after[0], HexValue(after[0]));
      HexIs(after[1], HexValue(after[1]));
    }
  }
}
