/**
 * The constants of the three copies of the scan-and-substitute pass, and how
 * the copies relate to each other.
 */
module Policies {
  import opened Base
  import opened PdfModel
  import opened Downscale
  import opened Recoder
  import opened ImageScan

  /** The command-line tool: skip when either side is below 50; substitute below 0.75 of the raw size. */
  function DemoPolicy(quality: int, maxDim: nat): Policy {
    Policy(50, SkipIfEitherSmall, Threshold(75, 100), quality, maxDim)
  }

  /** The web service (and its copy): skip when either side is below 50; substitute below 0.9. */
  function ServicePolicy(quality: int, maxDim: nat): Policy {
    Policy(50, SkipIfEitherSmall, Threshold(9, 10), quality, maxDim)
  }

  /** The batch script: skip only when both sides are below 100; substitute below 0.9. */
  function BatchPolicy(quality: int, maxDim: nat): Policy {
    Policy(100, SkipIfBothSmall, Threshold(9, 10), quality, maxDim)
  }

  /**
   * The 0.75 bar is stricter than the 0.9 bar: with the same recoding
   * parameters, every entry the command-line tool replaces the web service
   * replaces too, by the same stream.
   */
  lemma DemoReplacesOnlyWhatServiceReplaces(quality: int, maxDim: nat, env: Env, obj: Obj)
    requires ProcessEntry(DemoPolicy(quality, maxDim), env, obj).Some?
    ensures ProcessEntry(ServicePolicy(quality, maxDim), env, obj) == ProcessEntry(DemoPolicy(quality, maxDim), env, obj)
  {
    var rec := Recode(DemoPolicy(quality, maxDim), env, obj).value;
    assert Recode(ServicePolicy(quality, maxDim), env, obj) == Recode(DemoPolicy(quality, maxDim), env, obj);
    assert |rec.data| * 100 < |obj.raw| * 75;
    assert |rec.data| * 10 < |obj.raw| * 9;
  }

  /** Skipping when either side is small skips at least what skipping when both are small does. */
  lemma EitherRuleSkipsMore(minDim: int, width: int, height: int)
    ensures TooSmall(SkipIfBothSmall, minDim, width, height) ==> TooSmall(SkipIfEitherSmall, minDim, width, height)
    ensures (TooSmall(SkipIfEitherSmall, minDim, width, height) && !TooSmall(SkipIfBothSmall, minDim, width, height))
            <==> (width < minDim) != (height < minDim)
  {
  }

  /**
   * A wide, short image (150 by 20) is out of reach of the web service's pass
   * but eligible for the batch script's, which skips only images small in both directions.
   */
  lemma WideBannerEligibleOnlyInBatch(env: Env, raw: Bytes, quality: int, maxDim: nat)
    ensures var banner := Stream(map["/Subtype" := NameV("/Image"), "/Width" := IntV(150), "/Height" := IntV(20)], raw);
            && !Eligible(ServicePolicy(quality, maxDim), banner)
            && Eligible(BatchPolicy(quality, maxDim), banner)
            && ProcessEntry(ServicePolicy(quality, maxDim), env, banner).None?
  {
    var d := map["/Subtype" := NameV("/Image"), "/Width" := IntV(150), "/Height" := IntV(20)];
    assert Get(d, "/Width") == Some(IntV(150));
    assert Get(d, "/Height") == Some(IntV(20));
  }
}
