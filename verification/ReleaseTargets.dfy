/** The targets a release ships agents for, and the placeholder of each in the tap's template
    (scripts/release-manifest.sh, packaging/homebrew/pessimal-agent.rb.template). */
module ReleaseTargets {
  import opened Texts
  import opened Sums
  import opened ReleaseProtocol
  import opened Formula

  const MAC_ARM := "aarch64" + "-" + "apple-darwin"
  const LINUX_ARM := "aarch64" + "-" + "unknown-linux-gnu"
  const MAC_INTEL := "x86_64" + "-" + "apple-darwin"
  const LINUX_INTEL := "x86_64" + "-" + "unknown-linux-gnu"

  const MAC_ARM_SLOT := "@SHA256_" + "AARCH64" + "_" + "APPLE_DARWIN" + "@"
  const LINUX_ARM_SLOT := "@SHA256_" + "AARCH64" + "_" + "UNKNOWN_LINUX_GNU" + "@"
  const MAC_INTEL_SLOT := "@SHA256_" + "X86_64" + "_" + "APPLE_DARWIN" + "@"
  const LINUX_INTEL_SLOT := "@SHA256_" + "X86_64" + "_" + "UNKNOWN_LINUX_GNU" + "@"

  const TARGETS := [MAC_ARM, LINUX_ARM, MAC_INTEL, LINUX_INTEL]

  function Tarball(version: string, target: string): string {
    "pessimal-agent-" + version + "-" + target + ".tar.gz"
  }

  /** What `scripts/release-manifest.sh` prints. */
  function ManifestFor(version: string): Manifest {
    var agents := [Tarball(version, MAC_ARM), Tarball(version, LINUX_ARM), Tarball(version, MAC_INTEL),
                   Tarball(version, LINUX_INTEL)];
    var app := "Pessimal-" + version + "-macos.zip";
    Manifest([app, SUMS] + agents, agents, app)
  }

  lemma Dashed(a: string, b: string)
    ensures PlaceholderPart(a + "-" + b) == PlaceholderPart(a) + "_" + PlaceholderPart(b)
    ensures IsTriple(a) && IsTriple(b) ==> IsTriple(a + "-" + b)
  {
  }

  lemma Processors()
    ensures PlaceholderPart("aarch64") == "AARCH64" && PlaceholderPart("x86_64") == "X86_64"
    ensures IsTriple("aarch64") && IsTriple("x86_64")
  {
  }

  lemma Apple()
    ensures PlaceholderPart("apple-darwin") == "APPLE_DARWIN" && IsTriple("apple-darwin")
  {
  }

  lemma UnknownLinux()
    ensures PlaceholderPart("unknown-linux-gnu") == "UNKNOWN_LINUX_GNU" && IsTriple("unknown-linux-gnu")
  {
  }

  /** A target's slot, put together from its two halves. */
  lemma SlotOfHalves(target: string, a: string, b: string, slot: string)
    requires target == a + "-" + b && slot == "@SHA256_" + PlaceholderPart(a) + "_" + PlaceholderPart(b) + "@"
    requires IsTriple(a) && IsTriple(b)
    ensures AgentSlot(target) == slot && IsTriple(target)
  {
    hide PlaceholderPart, IsTriple;
    Dashed(a, b);
  }

  lemma TargetsHaveSlots()
    ensures AgentSlot(MAC_ARM) == MAC_ARM_SLOT && IsTriple(MAC_ARM)
    ensures AgentSlot(MAC_INTEL) == MAC_INTEL_SLOT && IsTriple(MAC_INTEL)
    ensures AgentSlot(LINUX_ARM) == LINUX_ARM_SLOT && IsTriple(LINUX_ARM)
    ensures AgentSlot(LINUX_INTEL) == LINUX_INTEL_SLOT && IsTriple(LINUX_INTEL)
  {
    hide PlaceholderPart, IsTriple, AgentSlot;
    Processors();
    Apple();
    UnknownLinux();
    SlotOfHalves(MAC_ARM, "aarch64", "apple-darwin", MAC_ARM_SLOT);
    SlotOfHalves(MAC_INTEL, "x86_64", "apple-darwin", MAC_INTEL_SLOT);
    SlotOfHalves(LINUX_ARM, "aarch64", "unknown-linux-gnu", LINUX_ARM_SLOT);
    SlotOfHalves(LINUX_INTEL, "x86_64", "unknown-linux-gnu", LINUX_INTEL_SLOT);
  }

  lemma SlotsDiffer()
    ensures MAC_ARM_SLOT[8] == LINUX_ARM_SLOT[8] == 'A' && MAC_INTEL_SLOT[8] == LINUX_INTEL_SLOT[8] == 'X'
    ensures APP_SLOT[8] == 'M' && MAC_ARM_SLOT[16] == 'A' && LINUX_ARM_SLOT[16] == 'U'
    ensures MAC_INTEL_SLOT[15] == 'A' && LINUX_INTEL_SLOT[15] == 'U'
    ensures forall slot :: slot in [MAC_ARM_SLOT, LINUX_ARM_SLOT, MAC_INTEL_SLOT, LINUX_INTEL_SLOT, APP_SLOT] ==> slot[1] == 'S'
    ensures forall slot :: slot in ["@VERSION@", "@TAG@", "@REPO@"] ==> slot[1] != 'S'
  {
  }

  lemma ManifestIsOfTheTargets(version: string)
    ensures IsManifestOf(ManifestFor(version), version, TARGETS)
  {
    hide AgentSlot, IsTriple;
    TargetsHaveSlots();
    SlotsDiffer();
  }

  /** The names in the template are those of the release's targets: what stands for each is the digest of that
      target's own tarball, and what stands for the app that of the app. */
  lemma TemplatesNameTheTargets(tag: string, digests: map<string, string>)
    requires tag != ""
    ensures var version := tag[1..]; var manifest := ManifestFor(version);
      IsManifestOf(manifest, version, TARGETS)
      && ValueOf(MAC_ARM_SLOT, tag, manifest, TARGETS, digests) == DigestOf(digests, Tarball(version, MAC_ARM))
      && ValueOf(LINUX_ARM_SLOT, tag, manifest, TARGETS, digests) == DigestOf(digests, Tarball(version, LINUX_ARM))
      && ValueOf(MAC_INTEL_SLOT, tag, manifest, TARGETS, digests) == DigestOf(digests, Tarball(version, MAC_INTEL))
      && ValueOf(LINUX_INTEL_SLOT, tag, manifest, TARGETS, digests) == DigestOf(digests, Tarball(version, LINUX_INTEL))
      && ValueOf("@SHA256_MACOS_APP@", tag, manifest, TARGETS, digests)
           == DigestOf(digests, "Pessimal-" + version + "-macos.zip")
      && ValueOf("@VERSION@", tag, manifest, TARGETS, digests) == Some(version)
      && ValueOf("@TAG@", tag, manifest, TARGETS, digests) == Some(tag)
      && ValueOf("@REPO@", tag, manifest, TARGETS, digests) == Some("Lightless-Labs/pessimal")
  {
    FixedSlots();
    hide AgentSlot, AgentValue, IsTriple, DigestOf;
    var version := tag[1..];
    ManifestIsOfTheTargets(version);
    TargetsHaveSlots();
    SlotsDiffer();
    AgentSlotNamesItsAsset(TARGETS, version, digests, 0);
    AgentSlotNamesItsAsset(TARGETS, version, digests, 1);
    AgentSlotNamesItsAsset(TARGETS, version, digests, 2);
    AgentSlotNamesItsAsset(TARGETS, version, digests, 3);
  }
}
