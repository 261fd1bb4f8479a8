TestResult.DisplayName,TestResult.Outcome,TestResult.Duration,TestResult.ResourceCount,RandomSeed
DataLoader.SecondTargetOverruns (correctness),Passed,00:00:00.4520056,200098,3
DataLoader.SecondTargetOverruns (well-formedness),Passed,00:00:00.4484430,172078,3
